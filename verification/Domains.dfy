/** Collecting the values of a list in order of first mention, each once. */
module Mentions {
  import opened Common

  /** The first position that mentions v, or the length if none does. */
  function First<T(==)>(es: seq<Option<T>>, v: T): (k: nat)
    ensures k <= |es|
    ensures k < |es| ==> es[k] == Some(v)
    ensures forall i :: 0 <= i < k ==> es[i] != Some(v)
  {
    if es == [] || es[0] == Some(v) then 0 else 1 + First(es[1..], v)
  }

  ghost predicate Ascending<T>(es: seq<Option<T>>, a: seq<T>) {
    forall i, j :: 0 <= i < j < |a| ==> First(es, a[i]) < First(es, a[j])
  }

  ghost predicate SameMembers<T(!new)>(es: seq<Option<T>>, a: seq<T>) {
    forall v :: v in a <==> Some(v) in es
  }

  ghost predicate FirstMentions<T(!new)>(es: seq<Option<T>>, a: seq<T>) {
    SameMembers(es, a) && Ascending(es, a)
  }

  lemma FirstPrefix<T>(es: seq<Option<T>>, more: Option<T>, v: T)
    requires Some(v) in es
    ensures First(es + [more], v) == First(es, v) < |es|
  {
    var to := es + [more];
    var i :| 0 <= i < |es| && es[i] == Some(v);
    var k, k0 := First(to, v), First(es, v);
    assert to[i] == Some(v) && to[k0] == es[k0] && to[k] == es[k];
  }

  lemma FirstNew<T>(es: seq<Option<T>>, v: T)
    requires Some(v) !in es
    ensures First(es + [Some(v)], v) == |es|
  {
    var to := es + [Some(v)];
    assert to[|es|] == Some(v);
    assert forall i :: 0 <= i < |es| ==> to[i] == es[i] && es[i] != Some(v);
  }

  lemma MembersStep<T(!new)>(es: seq<Option<T>>, e: Option<T>, a: seq<T>)
    requires SameMembers(es, a)
    ensures SameMembers(es + [e], if e.Some? && e.value !in a then a + [e.value] else a)
  {
  }

  lemma AscendingStep<T(!new)>(es: seq<Option<T>>, e: Option<T>, a: seq<T>)
    requires FirstMentions(es, a)
    ensures Ascending(es + [e], if e.Some? && e.value !in a then a + [e.value] else a)
  {
    var to := es + [e];
    forall i | 0 <= i < |a| ensures First(to, a[i]) == First(es, a[i]) < |es| {
      assert a[i] in a;
      FirstPrefix(es, e, a[i]);
    }
    if e.Some? && e.value !in a { FirstNew(es, e.value); }
  }

  lemma MentionStep<T(!new)>(es: seq<Option<T>>, n: nat, a: seq<T>)
    requires n < |es| && FirstMentions(es[..n], a)
    ensures FirstMentions(es[..n + 1], if es[n].Some? && es[n].value !in a then a + [es[n].value] else a)
  {
    assert es[..n + 1] == es[..n] + [es[n]];
    MembersStep(es[..n], es[n], a);
    AscendingStep(es[..n], es[n], a);
  }

  lemma AscendingDistinct<T>(es: seq<Option<T>>, a: seq<T>)
    requires Ascending(es, a)
    ensures Distinct(a)
  {
  }

  /** First mentions determine the list. */
  lemma {:induction false} AscendingUnique<T>(es: seq<Option<T>>, a: seq<T>, b: seq<T>)
    requires Ascending(es, a) && Ascending(es, b)
    requires forall v :: v in a <==> v in b
    ensures a == b
  {
    if a != [] {
      assert a[0] in b;
      var i :| 0 <= i < |b| && b[i] == a[0];
      assert b[0] in a;
      var j :| 0 <= j < |a| && a[j] == b[0];
      assert First(es, b[0]) <= First(es, b[i]);
      assert First(es, a[0]) <= First(es, a[j]);
      assert i == 0;
      AscendingTail(es, a);
      AscendingTail(es, b);
      forall v ensures v in a[1..] <==> v in b[1..] {
        assert v in a <==> v == a[0] || v in a[1..];
        assert v in b <==> v == b[0] || v in b[1..];
      }
      AscendingUnique(es, a[1..], b[1..]);
      assert a == [a[0]] + a[1..] && b == [b[0]] + b[1..];
    } else if b != [] {
      HasMember(b);
    }
  }

  lemma HasMember<T>(s: seq<T>)
    requires s != []
    ensures exists v :: v in s
  {
    assert s[0] in s;
  }

  lemma AscendingTail<T>(es: seq<Option<T>>, a: seq<T>)
    requires Ascending(es, a) && a != []
    ensures Ascending(es, a[1..]) && a[0] !in a[1..]
  {
  }

  lemma FirstMentionsUnique<T(!new)>(es: seq<Option<T>>, a: seq<T>, b: seq<T>)
    requires FirstMentions(es, a) && FirstMentions(es, b)
    ensures a == b
  {
    forall v ensures v in a <==> v in b { assert v in a <==> Some(v) in es; }
    AscendingUnique(es, a, b);
  }

  // ---- numbering the marked positions of a list

  /** The 1-based numbers of the marked positions among the first n, ascending. */
  ghost predicate Numbered(flags: seq<bool>, n: nat, numbers: seq<int>) {
    && (forall m :: m in numbers <==> 1 <= m <= n && m <= |flags| && flags[m - 1])
    && (forall i, j :: 0 <= i < j < |numbers| ==> numbers[i] < numbers[j])
  }

  lemma AppendMembers(s: seq<int>, x: int)
    ensures forall m :: m in s + [x] <==> m in s || m == x
  {
  }

  lemma AppendAscending(s: seq<int>, x: int)
    requires forall i, j :: 0 <= i < j < |s| ==> s[i] < s[j]
    requires forall m :: m in s ==> m < x
    ensures forall i, j :: 0 <= i < j < |s + [x]| ==> (s + [x])[i] < (s + [x])[j]
  {
    assert forall i :: 0 <= i < |s| ==> s[i] in s;
  }

  lemma NumberStep(flags: seq<bool>, n: nat, numbers: seq<int>)
    requires n < |flags| && Numbered(flags, n, numbers)
    ensures Numbered(flags, n + 1, if flags[n] then numbers + [n + 1] else numbers)
  {
    AppendMembers(numbers, n + 1);
    AppendAscending(numbers, n + 1);
  }

  // ---- one pass over a list, collecting values and the numbers of the positions without one

  function Mapped<S, T>(items: seq<S>, f: S -> T): (r: seq<T>)
    ensures |r| == |items|
  {
    seq(|items|, i requires 0 <= i < |items| => f(items[i]))
  }

  method Collect<S, T(==,!new)>(items: seq<S>, blank: S -> bool, entry: S -> Option<T>, ghost bad: S -> bool)
      returns (valid: seq<T>, badNumbers: seq<int>)
    requires forall i :: 0 <= i < |items| ==> (blank(items[i]) ==> entry(items[i]).None?)
    requires forall i :: 0 <= i < |items| ==> bad(items[i]) == (!blank(items[i]) && entry(items[i]).None?)
    ensures FirstMentions(Mapped(items, entry), valid)
    ensures Numbered(Mapped(items, bad), |items|, badNumbers)
  {
    valid, badNumbers := [], [];
    ghost var es, flags := Mapped(items, entry), Mapped(items, bad);
    for i := 0 to |items|
      invariant FirstMentions(es[..i], valid)
      invariant Numbered(flags, i, badNumbers)
    {
      MentionStep(es, i, valid);
      NumberStep(flags, i, badNumbers);
      if blank(items[i]) {
        continue;
      }
      var n := entry(items[i]);
      if n.None? {
        badNumbers := badNumbers + [i + 1];
        continue;
      }
      if n.value !in valid {
        valid := valid + [n.value];
      }
    }
    assert es[..|items|] == es;
  }
}

/** Domain names: normalisation, the admin block list, and what blocking a name means. */
module Domains {
  import opened Common
  import opened Text
  import opened Mentions

  // ---- normalizeDomain

  /** Lower-casing of one character. U+0130 and U+212A are the only characters outside A..Z whose
      lower case is an ASCII letter; every other one stays outside the alphabet of domain names,
      so it may stand for itself. */
  function LowerChar(c: char): char {
    if 'A' <= c <= 'Z' then (c as int + 32) as char
    else if c == '\U{130}' then 'i'
    else if c == '\U{212A}' then 'k'
    else c
  }

  function ToLower(s: string): string {
    seq(|s|, i requires 0 <= i < |s| => LowerChar(s[i]))
  }

  predicate IsDot(c: char) { c == '.' }

  function TrimDots(s: string): string { TrimRight(s, IsDot) }

  predicate IsLetter(c: char) { 'a' <= c <= 'z' }

  predicate IsDomainChar(c: char) { IsLetter(c) || IsDigit(c) }

  predicate NameChar(c: char) { IsDomainChar(c) || c == '.' || c == '-' }

  function Labels(d: string): seq<string> { Split(d, '.') }

  predicate LabelOk(part: string) {
    part != "" && |part| <= 63 && IsDomainChar(part[0]) && IsDomainChar(part[|part| - 1])
  }

  predicate AllNameChars(d: string) { forall i :: 0 <= i < |d| ==> NameChar(d[i]) }

  predicate AllLabelsOk(d: string) { forall i :: 0 <= i < |Labels(d)| ==> LabelOk(Labels(d)[i]) }

  /** The rules a stored domain obeys. */
  predicate Canonical(d: string) {
    d != "" && |d| <= 253 && AllNameChars(d) && '.' in d && IsLetter(d[|d| - 1]) && AllLabelsOk(d)
  }

  function NormalizeDomain(d: string): (r: Option<string>)
    ensures r.Some? ==> Canonical(r.value)
  {
    var s := TrimDots(TrimSpace(ToLower(d)));
    if s == "" then None
    else if |s| > 253 then None
    else if !AllNameChars(s) then None
    else if '.' !in s then None
    else if !IsLetter(s[|s| - 1]) then None
    else if !AllLabelsOk(s) then None
    else Some(s)
  }

  // ---- which names those are

  /** A label: letters, digits and inner dashes. */
  predicate LabelText(l: string) {
    && 1 <= |l| <= 63 && l[0] != '-' && l[|l| - 1] != '-'
    && forall i :: 0 <= i < |l| ==> 'a' <= l[i] <= 'z' || '0' <= l[i] <= '9' || l[i] == '-'
  }

  lemma LabelChars(l: string)
    requires '.' !in l
    ensures LabelText(l) <==> LabelOk(l) && AllNameChars(l)
  {
  }

  lemma {:induction false} JoinedChars(labels: seq<string>)
    requires labels != [] && forall i :: 0 <= i < |labels| ==> '.' !in labels[i]
    ensures AllNameChars(Join(labels, ".")) <==> forall i :: 0 <= i < |labels| ==> AllNameChars(labels[i])
    ensures '.' in Join(labels, ".") <==> |labels| >= 2
  {
    if |labels| > 1 {
      var rest := labels[1..];
      JoinedChars(rest);
      ConcatChars(labels[0], Join(rest, "."));
      assert forall i :: 0 < i < |labels| ==> labels[i] == rest[i - 1];
    }
  }

  lemma ConcatChars(a: string, b: string)
    ensures AllNameChars(a + "." + b) <==> AllNameChars(a) && AllNameChars(b)
    ensures '.' in a + "." + b
  {
    var s := a + "." + b;
    assert s[|a|] == '.';
    assert forall i :: 0 <= i < |a| ==> s[i] == a[i];
    assert forall i :: 0 <= i < |b| ==> s[|a| + 1 + i] == b[i];
  }

  lemma {:induction false} JoinedEnd(labels: seq<string>)
    requires labels != [] && labels[|labels| - 1] != ""
    ensures var j, l := Join(labels, "."), labels[|labels| - 1]; j != "" && j[|j| - 1] == l[|l| - 1]
  {
    if |labels| > 1 { JoinedEnd(labels[1..]); }
  }

  /** A name is canonical if and only if it is two or more labels with dots between them, at most 253 characters in
      all, and ends in a letter. */
  lemma CanonicalExactly(labels: seq<string>)
    requires labels != [] && forall i :: 0 <= i < |labels| ==> '.' !in labels[i]
    ensures var d, last := Join(labels, "."), labels[|labels| - 1];
      Canonical(d) <==>
        && |labels| >= 2 && |d| <= 253 && (forall i :: 0 <= i < |labels| ==> LabelText(labels[i]))
        && 'a' <= last[|last| - 1] <= 'z'
  {
    var d := Join(labels, ".");
    SplitJoin(labels, '.');
    JoinedChars(labels);
    forall i | 0 <= i < |labels| ensures LabelText(labels[i]) <==> LabelOk(labels[i]) && AllNameChars(labels[i]) {
      LabelChars(labels[i]);
    }
    assert Labels(d) == labels;
    if labels[|labels| - 1] == "" {
      assert !LabelOk(labels[|labels| - 1]) && !LabelText(labels[|labels| - 1]);
    } else {
      JoinedEnd(labels);
    }
  }

  lemma FirstLabel(d: string)
    requires d != ""
    ensures Labels(d)[0] == "" <==> d[0] == '.'
    ensures d[0] != '.' ==> Labels(d)[0][0] == d[0]
  {
  }

  lemma CanonicalEnds(n: string)
    requires Canonical(n)
    ensures n != "" && IsDomainChar(n[0]) && IsLetter(n[|n| - 1])
  {
    FirstLabel(n);
    assert LabelOk(Labels(n)[0]);
  }

  lemma LowerFixed(d: string)
    requires AllNameChars(d)
    ensures ToLower(d) == d
  {
  }

  lemma Untrimmed(d: string)
    requires d != "" && IsDomainChar(d[0]) && IsLetter(d[|d| - 1])
    ensures TrimDots(TrimSpace(d)) == d
  {
    assert "" + d == d && d + "" == d;
    TrimLeftPadded("", d);
    TrimRightPadded(d, "", IsSpace);
    TrimRightPadded(d, "", IsDot);
  }

  /** The canonical names are exactly the fixed points of the normaliser. */
  lemma CanonicalIsFixed(d: string)
    ensures Canonical(d) <==> NormalizeDomain(d) == Some(d)
  {
    if Canonical(d) {
      CanonicalEnds(d);
      LowerFixed(d);
      Untrimmed(d);
    }
  }

  /** Normalising twice is normalising once. */
  lemma NormalizeIdempotent(d: string)
    ensures NormalizeDomain(d).Some? ==>
      NormalizeDomain(NormalizeDomain(d).value) == NormalizeDomain(d)
  {
    if NormalizeDomain(d).Some? { CanonicalIsFixed(NormalizeDomain(d).value); }
  }

  ghost predicate AllDots(s: string) { forall i :: 0 <= i < |s| ==> s[i] == '.' }

  /** d is n in any letter case, with blanks around it and dots after it. */
  ghost predicate Decorates(d: string, n: string) {
    exists before, dots, after ::
      AllSpace(before) && AllDots(dots) && AllSpace(after) && ToLower(d) == before + n + dots + after
  }

  lemma TrimmedWhenDecorated(d: string, n: string, before: string, dots: string, after: string)
    requires n != "" && IsDomainChar(n[0]) && IsLetter(n[|n| - 1])
    requires AllSpace(before) && AllDots(dots) && AllSpace(after) && ToLower(d) == before + n + dots + after
    ensures TrimDots(TrimSpace(ToLower(d))) == n
  {
    var core := n + dots;
    assert core[0] == n[0] && !IsSpace(core[0]);
    assert !IsSpace(core[|core| - 1]);
    assert ToLower(d) == before + (core + after);
    TrimLeftPadded(before, core + after);
    TrimRightPadded(core, after, IsSpace);
    TrimRightPadded(n, dots, IsDot);
  }

  lemma Assemble(s: string, before: string, t: string, u: string, after: string, n: string, dots: string)
    requires s == before + t && t == u + after && u == n + dots
    ensures s == before + n + dots + after
  {
  }

  lemma TrimLeftRest(s: string)
    ensures AllSpace(s[..Leading(s)]) && s == s[..Leading(s)] + TrimLeft(s)
  {
  }

  lemma TrimRightRest(s: string, drop: char -> bool)
    ensures |TrimRight(s, drop)| <= |s| && s == TrimRight(s, drop) + s[|TrimRight(s, drop)|..]
    ensures forall i :: 0 <= i < |s[|TrimRight(s, drop)|..]| ==> drop(s[|TrimRight(s, drop)|..][i])
  {
  }

  lemma TrimmingDecorates(d: string)
    ensures Decorates(d, TrimDots(TrimSpace(ToLower(d))))
  {
    var s := ToLower(d);
    var t := TrimLeft(s);
    var u := TrimSpace(s);
    var n := TrimDots(u);
    TrimLeftRest(s);
    TrimRightRest(t, IsSpace);
    TrimRightRest(u, IsDot);
    var before, after, dots := s[..Leading(s)], t[|u|..], u[|n|..];
    assert AllSpace(after) && AllDots(dots);
    Assemble(s, before, t, u, after, n, dots);
  }

  /** What normalisation accepts and returns: n is the result for d exactly when n obeys the rules and
      d is n with changed case, surrounding blanks and trailing dots, and nothing else. */
  lemma NormalizeMeaning(d: string, n: string)
    ensures NormalizeDomain(d) == Some(n) <==> Canonical(n) && Decorates(d, n)
  {
    TrimmingDecorates(d);
    if Canonical(n) && Decorates(d, n) {
      var before, dots, after :|
        AllSpace(before) && AllDots(dots) && AllSpace(after) && ToLower(d) == before + n + dots + after;
      CanonicalEnds(n);
      TrimmedWhenDecorated(d, n, before, dots, after);
    }
  }

  /** The same letter in either case, U+0130 and U+212A being capitals too. */
  predicate SameLetter(a: char, b: char) {
    || a == b || ('A' <= a <= 'Z' && b as int == a as int + 32) || ('A' <= b <= 'Z' && a as int == b as int + 32)
    || (a == '\U{130}' && b == 'i') || (a == '\U{212A}' && b == 'k')
  }

  /** The case of the letters does not matter. */
  lemma CaseIrrelevant(d: string, e: string)
    requires |d| == |e| && forall i :: 0 <= i < |d| ==> SameLetter(d[i], e[i])
    ensures NormalizeDomain(d) == NormalizeDomain(e)
  {
    forall i | 0 <= i < |d| ensures ToLower(d)[i] == ToLower(e)[i] { SameLower(d[i], e[i]); }
    assert ToLower(d) == ToLower(e);
  }

  lemma SameLower(a: char, b: char)
    requires SameLetter(a, b)
    ensures LowerChar(a) == LowerChar(b)
  {
  }

  // ---- what the block list refuses

  /** The test DomainBlocked applies to one entry. */
  predicate Matches(d: string, b: string) {
    d == b || HasSuffix(d, "." + b)
  }

  ghost predicate LabelSuffix(b: seq<string>, d: seq<string>) {
    exists k :: 0 <= k <= |d| && d[k..] == b
  }

  lemma {:induction false} JoinAppend(a: seq<string>, b: seq<string>)
    requires |a| >= 1 && |b| >= 1
    ensures Join(a + b, ".") == Join(a, ".") + "." + Join(b, ".")
  {
    if |a| == 1 {
      assert (a + b)[1..] == b;
    } else {
      assert (a + b)[1..] == a[1..] + b;
      JoinAppend(a[1..], b);
    }
  }

  lemma MatchGivesSuffix(d: string, b: string)
    requires HasSuffix(d, "." + b)
    ensures LabelSuffix(Labels(b), Labels(d))
  {
    var a := d[..|d| - |b| - 1];
    assert d == a + ("." + b) && "." + b == ['.'] + b;
    assert d == a + ['.'] + b;
    SplitConcat(a, b, '.');
    assert (Labels(a) + Labels(b))[|Labels(a)|..] == Labels(b);
  }

  lemma SuffixGivesMatch(d: string, b: string, k: nat)
    requires 0 < k <= |Labels(d)| && Labels(d)[k..] == Labels(b)
    ensures HasSuffix(d, "." + b)
  {
    var a := Labels(d)[..k];
    assert Labels(d) == a + Labels(b);
    JoinSplit(d, '.');
    JoinSplit(b, '.');
    JoinAppend(a, Labels(b));
    assert d == Join(a, ".") + ("." + b);
  }

  /** The textual test is the label test: a name is refused exactly when the labels of a blocked
      name end its own list of labels. "forexample.com" is not below "example.com". */
  lemma BlockedIsLabelSuffix(d: string, b: string)
    ensures Matches(d, b) <==> LabelSuffix(Labels(b), Labels(d))
  {
    if d == b {
      assert Labels(d)[0..] == Labels(b);
    } else if HasSuffix(d, "." + b) {
      MatchGivesSuffix(d, b);
    }
    if k :| 0 <= k <= |Labels(d)| && Labels(d)[k..] == Labels(b) {
      if k == 0 {
        JoinSplit(d, '.');
        JoinSplit(b, '.');
      } else {
        SuffixGivesMatch(d, b, k);
      }
    }
  }

  // ---- ParseBlockedList

  /** What one line of the admin's text contributes. */
  function Entry(line: string): Option<string> { NormalizeDomain(TrimSpace(line)) }

  predicate Blank(line: string) { TrimSpace(line) == "" }

  predicate BadLine(line: string) { !Blank(line) && Entry(line).None? }

  /** A line contributes the name it decorates, and is bad if it is neither blank nor decorates any. */
  lemma LineMeans(line: string, n: string)
    ensures Entry(line) == Some(n) <==> Canonical(n) && Decorates(TrimSpace(line), n)
    ensures BadLine(line) <==> !AllSpace(line) && forall m :: !(Canonical(m) && Decorates(TrimSpace(line), m))
  {
    TrimmedBlank(line);
    forall m ensures Entry(line) == Some(m) <==> Canonical(m) && Decorates(TrimSpace(line), m) {
      NormalizeMeaning(TrimSpace(line), m);
    }
  }

  /** The contributions in order of first mention, each once. */
  ghost predicate AcceptedFrom(text: string, valid: seq<string>) {
    FirstMentions(Mapped(Split(text, '\n'), Entry), valid)
  }

  /** Exactly the 1-based numbers of the bad lines, ascending. */
  ghost predicate BadNumbers(lines: seq<string>, bad: seq<int>) {
    Numbered(Mapped(lines, BadLine), |lines|, bad)
  }

  lemma BlankHasNoEntry(line: string)
    requires Blank(line)
    ensures Entry(line).None?
  {
  }

  method ParseBlockedList(text: string) returns (valid: seq<string>, badLines: seq<int>)
    ensures AcceptedFrom(text, valid)
    ensures BadNumbers(Split(text, '\n'), badLines)
  {
    var lines := Split(text, '\n');
    forall i | 0 <= i < |lines| && Blank(lines[i]) ensures Entry(lines[i]).None? { BlankHasNoEntry(lines[i]); }
    valid, badLines := Collect(lines, Blank, Entry, BadLine);
  }

  /** Some line of the text normalises to v. */
  ghost predicate Contributed(text: string, v: string) {
    var lines := Split(text, '\n');
    exists i :: 0 <= i < |lines| && Entry(lines[i]) == Some(v)
  }

  /** The list holds exactly the normalised lines, in canonical form, without repetition. */
  lemma AcceptedProperties(text: string, valid: seq<string>)
    requires AcceptedFrom(text, valid)
    ensures Distinct(valid)
    ensures forall v :: v in valid <==> Contributed(text, v)
    ensures forall v :: v in valid ==> Canonical(v)
  {
    AscendingDistinct(Mapped(Split(text, '\n'), Entry), valid);
    forall v ensures v in valid <==> Contributed(text, v) { AcceptedIffContributed(text, valid, v); }
    forall v | v in valid ensures Canonical(v) { ContributedCanonical(text, v); }
  }

  lemma AcceptedIffContributed(text: string, valid: seq<string>, v: string)
    requires AcceptedFrom(text, valid)
    ensures v in valid <==> Contributed(text, v)
  {
    var lines := Split(text, '\n');
    var es := Mapped(lines, Entry);
    assert v in valid <==> Some(v) in es;
    if v in valid {
      var k :| 0 <= k < |es| && es[k] == Some(v);
      assert Entry(lines[k]) == Some(v);
    }
    if i :| 0 <= i < |lines| && Entry(lines[i]) == Some(v) { assert es[i] == Some(v); }
  }

  lemma ContributedCanonical(text: string, v: string)
    requires Contributed(text, v)
    ensures Canonical(v)
  {
  }

  // ---- the stored list

  /** How the list is kept in the settings table; an empty value reads back as no list. */
  function Stored(list: seq<string>): string { Join(list, "\n") }

  function Loaded(setting: Option<string>): seq<string> {
    if setting.None? || setting.value == "" then [] else Split(setting.value, '\n')
  }

  lemma CanonicalOneLine(v: string)
    requires Canonical(v)
    ensures v != "" && '\n' !in v
  {
  }

  /** Whatever the parser accepts survives being stored and read back. */
  lemma BlockListRoundTrip(text: string, valid: seq<string>)
    requires AcceptedFrom(text, valid)
    ensures Loaded(Some(Stored(valid))) == valid
  {
    AcceptedProperties(text, valid);
    forall v | v in valid ensures v != "" && '\n' !in v { CanonicalOneLine(v); }
    if valid != [] {
      SplitJoin(valid, '\n');
      assert valid[0] in valid;
    }
  }

  /** b is listed and refuses d, and nothing listed before it does. */
  ghost predicate FirstHit(list: seq<string>, d: string, b: string) {
    exists i :: 0 <= i < |list| && list[i] == b && Matches(d, b) && forall j :: 0 <= j < i ==> !Matches(d, list[j])
  }

  class BlockList {
    var setting: Option<string>

    method SetBlockedDomains(list: seq<string>)
      modifies this
      ensures setting == Some(Stored(list))
    {
      setting := Some(Join(list, "\n"));
    }

    /** The first listed entry that refuses d, if any. */
    method DomainBlocked(d: string) returns (r: Option<string>)
      ensures r.Some? ==> FirstHit(Loaded(setting), d, r.value)
      ensures r.None? ==> forall b :: b in Loaded(setting) ==> !Matches(d, b)
    {
      var list := Loaded(setting);
      for i := 0 to |list|
        invariant forall j :: 0 <= j < i ==> !Matches(d, list[j])
      {
        if d == list[i] || HasSuffix(d, "." + list[i]) {
          return Some(list[i]);
        }
      }
      return None;
    }

    /** The whole path: the admin saves a text, and from then on a name is refused exactly when some
        line of that text normalises to a name whose labels end its own. */
    method SaveAndAsk(text: string, d: string) returns (badLines: seq<int>, blocked: bool)
      modifies this
      ensures BadNumbers(Split(text, '\n'), badLines)
      ensures blocked <==> RefusedByText(text, d)
    {
      var valid;
      valid, badLines := ParseBlockedList(text);
      SetBlockedDomains(valid);
      var hit := DomainBlocked(d);
      blocked := hit.Some?;
      BlockListRoundTrip(text, valid);
      AskMeansLabels(text, valid, d);
    }
  }

  lemma AskMeansLabels(text: string, valid: seq<string>, d: string)
    requires AcceptedFrom(text, valid)
    ensures (exists b :: b in valid && Matches(d, b)) <==> RefusedByText(text, d)
  {
    AcceptedProperties(text, valid);
    forall b { BlockedIsLabelSuffix(d, b); }
    if b :| b in valid && Matches(d, b) {
      assert Contributed(text, b) && LabelSuffix(Labels(b), Labels(d));
    }
    if b :| Contributed(text, b) && LabelSuffix(Labels(b), Labels(d)) {
      assert b in valid;
    }
  }

  /** Some line of the text normalises to a name whose labels end those of d. */
  ghost predicate RefusedByText(text: string, d: string) {
    exists b :: Contributed(text, b) && LabelSuffix(Labels(b), Labels(d))
  }
}
