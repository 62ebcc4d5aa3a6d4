/** The string operations of the standard library that the printers and parsers are written with. */
module Text {
  import opened Common

  // ---- strings.Split with a one-character separator, and strings.Join

  function Split(s: string, sep: char): (r: seq<string>)
    ensures |r| >= 1
    ensures forall i :: 0 <= i < |r| ==> sep !in r[i]
  {
    if s == "" then [""]
    else if s[0] == sep then [""] + Split(s[1..], sep)
    else
      var rest := Split(s[1..], sep);
      [[s[0]] + rest[0]] + rest[1..]
  }

  function Join(parts: seq<string>, sep: string): string {
    if |parts| == 0 then ""
    else if |parts| == 1 then parts[0]
    else parts[0] + sep + Join(parts[1..], sep)
  }

  lemma {:induction false} SplitNone(s: string, sep: char)
    requires sep !in s
    ensures Split(s, sep) == [s]
  {
    if s != "" {
      SplitNone(s[1..], sep);
      assert s == [s[0]] + s[1..];
    }
  }

  /** A separator between two texts always separates their pieces. */
  lemma {:induction false} SplitConcat(a: string, b: string, sep: char)
    ensures Split(a + [sep] + b, sep) == Split(a, sep) + Split(b, sep)
  {
    var s := a + [sep] + b;
    if a == "" {
      assert s[1..] == b;
    } else {
      assert s[1..] == a[1..] + [sep] + b;
      SplitConcat(a[1..], b, sep);
    }
  }

  lemma {:induction false} JoinSplit(s: string, sep: char)
    ensures Join(Split(s, sep), [sep]) == s
  {
    if s != "" {
      JoinSplit(s[1..], sep);
      var rest := Split(s[1..], sep);
      assert s == [s[0]] + s[1..];
      if s[0] == sep {
        assert ([""] + rest)[1..] == rest;
      } else {
        assert ([[s[0]] + rest[0]] + rest[1..])[1..] == rest[1..];
      }
    }
  }

  lemma {:induction false} SplitJoin(parts: seq<string>, sep: char)
    requires |parts| >= 1
    requires forall i :: 0 <= i < |parts| ==> sep !in parts[i]
    ensures Split(Join(parts, [sep]), sep) == parts
  {
    SplitNone(parts[0], sep);
    if |parts| > 1 {
      SplitConcat(parts[0], Join(parts[1..], [sep]), sep);
      SplitJoin(parts[1..], sep);
    }
  }

  // ---- strings.HasSuffix

  predicate HasSuffix(s: string, suffix: string) {
    |suffix| <= |s| && s[|s| - |suffix|..] == suffix
  }

  // ---- strings.TrimSpace

  predicate IsSpace(c: char) {
    || c == ' ' || '\t' <= c <= '\r' || c == '\U{85}' || c == '\U{A0}' || c == '\U{1680}'
    || c == '\U{2028}' || c == '\U{2029}' || c == '\U{202F}' || c == '\U{205F}' || c == '\U{3000}'
    || '\U{2000}' <= c <= '\U{200A}'
  }

  /** Tab to carriage return, space, next line, and the space separators. */
  lemma SpacesExactly(c: char)
    ensures IsSpace(c) <==>
      c as int in {0x09, 0x0A, 0x0B, 0x0C, 0x0D, 0x20, 0x85, 0xA0, 0x1680, 0x2000, 0x2001, 0x2002, 0x2003, 0x2004, 0x2005, 0x2006,
        0x2007, 0x2008, 0x2009, 0x200A, 0x2028, 0x2029, 0x202F, 0x205F, 0x3000}
  {
  }

  predicate NoSpace(s: string) {
    forall i :: 0 <= i < |s| ==> !IsSpace(s[i])
  }

  ghost predicate AllSpace(s: string) { forall i :: 0 <= i < |s| ==> IsSpace(s[i]) }

  /** How many blanks a text starts with. */
  function Leading(s: string): (n: nat)
    ensures n <= |s| && (forall i :: 0 <= i < n ==> IsSpace(s[i])) && (n < |s| ==> !IsSpace(s[n]))
  {
    if s != "" && IsSpace(s[0]) then 1 + Leading(s[1..]) else 0
  }

  /** How long a text is without the characters c it ends in. */
  function WithoutTrailing(s: string, drop: char -> bool): (n: nat)
    ensures n <= |s| && (forall i :: n <= i < |s| ==> drop(s[i])) && (n > 0 ==> !drop(s[n - 1]))
  {
    if s != "" && drop(s[|s| - 1]) then WithoutTrailing(s[..|s| - 1], drop) else |s|
  }

  function TrimLeft(s: string): string { s[Leading(s)..] }

  function TrimRight(s: string, drop: char -> bool): string { s[..WithoutTrailing(s, drop)] }

  function TrimSpace(s: string): string { TrimRight(TrimLeft(s), IsSpace) }

  lemma TrimmedBlank(s: string)
    ensures TrimSpace(s) == "" <==> AllSpace(s)
  {
    var t := TrimLeft(s);
    if t != "" { assert s[Leading(s)] == t[0]; }
  }

  lemma TrimLeftPadded(before: string, s: string)
    requires AllSpace(before) && s != "" && !IsSpace(s[0])
    ensures TrimLeft(before + s) == s
  {
    var t := before + s;
    assert t[|before|] == s[0];
    assert forall i :: 0 <= i < |before| ==> t[i] == before[i];
    assert Leading(t) == |before|;
  }

  lemma TrimRightPadded(s: string, after: string, drop: char -> bool)
    requires s != "" && !drop(s[|s| - 1]) && forall i :: 0 <= i < |after| ==> drop(after[i])
    ensures TrimRight(s + after, drop) == s
  {
    var t := s + after;
    assert t[|s| - 1] == s[|s| - 1];
    assert forall i :: |s| <= i < |t| ==> t[i] == after[i - |s|];
    assert WithoutTrailing(t, drop) == |s|;
  }

  // ---- strconv.Itoa / %d and strconv.Atoi

  const MAX_INT64: int := 0x7FFF_FFFF_FFFF_FFFF

  predicate IsDigit(c: char) { '0' <= c <= '9' }

  predicate AllDigits(s: string) { forall i :: 0 <= i < |s| ==> IsDigit(s[i]) }

  function DigitsValue(s: string): nat
    requires AllDigits(s)
  {
    if s == "" then 0
    else DigitsValue(s[..|s| - 1]) * 10 + (s[|s| - 1] as int - '0' as int)
  }

  /** The decimal digits of a natural number. */
  function Digits(n: nat): (s: string)
    ensures s != "" && AllDigits(s) && DigitsValue(s) == n
  {
    var last := ['0' + (n % 10) as char];
    if n < 10 then
      assert last[..0] == "";
      last
    else
      var front := Digits(n / 10);
      assert (front + last)[..|front|] == front;
      front + last
  }

  /** An optional sign, then at least one digit, within the 64-bit range. */
  function Atoi(s: string): Option<int> {
    if s == "" then None
    else
      var negative := s[0] == '-';
      var body := if s[0] == '-' || s[0] == '+' then s[1..] else s;
      if body == "" || !AllDigits(body) then None
      else
        var n: int := DigitsValue(body);
        if negative then (if n <= MAX_INT64 + 1 then Some(-n) else None)
        else (if n <= MAX_INT64 then Some(n) else None)
  }

  /** The text is the digits, with a sign or without, and v what they stand for, within 64 bits. */
  predicate Spells(s: string, digits: string, v: int) {
    && digits != "" && (forall i :: 0 <= i < |digits| ==> '0' <= digits[i] <= '9')
    && (s == "-" + digits || s == digits || s == "+" + digits)
    && v == (if s == "-" + digits then -1 else 1) * DigitsValue(digits)
    && -0x8000_0000_0000_0000 <= v <= 0x7FFF_FFFF_FFFF_FFFF
  }

  /** What is accepted as a number, and which one it is. */
  lemma AtoiExactly(s: string, v: int)
    ensures Atoi(s) == Some(v) <==> exists digits :: Spells(s, digits, v)
  {
    if digits :| Spells(s, digits, v) {
      assert s != digits ==> s[1..] == digits;
    }
    if Atoi(s) == Some(v) {
      var body := if s[0] == '-' || s[0] == '+' then s[1..] else s;
      assert s[0] == '-' ==> s == "-" + body;
      assert s[0] == '+' ==> s == "+" + body;
      assert Spells(s, body, v);
    }
  }

  lemma AtoiDigits(n: nat)
    requires n <= MAX_INT64
    ensures Atoi(Digits(n)) == Some(n)
  {
  }

  // ---- strings.Fields

  /** The length of the word a text starts with. */
  function WordLength(s: string): (n: nat)
    ensures n <= |s|
    ensures n > 0 || s == "" || IsSpace(s[0])
  {
    if s == "" || IsSpace(s[0]) then 0 else 1 + WordLength(s[1..])
  }

  function Fields(s: string): seq<string> {
    if s == "" then []
    else if IsSpace(s[0]) then Fields(s[1..])
    else var n := WordLength(s); [s[..n]] + Fields(s[n..])
  }

  /** A text that is one word. */
  ghost predicate IsWord(s: string) { s != "" && NoSpace(s) }

  lemma {:induction false} WordOf(w: string, rest: string)
    requires NoSpace(w) && (rest == "" || IsSpace(rest[0]))
    ensures WordLength(w + rest) == |w|
  {
    if w != "" {
      assert (w + rest)[1..] == w[1..] + rest;
      WordOf(w[1..], rest);
    }
  }

  lemma {:induction false} FieldsBlanks(blanks: string, rest: string)
    requires AllSpace(blanks)
    ensures Fields(blanks + rest) == Fields(rest)
  {
    if blanks == "" {
      assert blanks + rest == rest;
    } else {
      assert (blanks + rest)[1..] == blanks[1..] + rest;
      FieldsBlanks(blanks[1..], rest);
    }
  }

  /** A word followed by a blank (or the end) is the first field. */
  lemma FieldsWord(w: string, rest: string)
    requires IsWord(w) && (rest == "" || IsSpace(rest[0]))
    ensures Fields(w + rest) == [w] + Fields(rest)
  {
    WordOf(w, rest);
    assert (w + rest)[|w|..] == rest && (w + rest)[..|w|] == w;
  }

  /** One step along a line: blanks, then a word. */
  lemma FieldsStep(blanks: string, w: string, rest: string)
    requires AllSpace(blanks) && IsWord(w) && (rest == "" || IsSpace(rest[0]))
    ensures Fields(blanks + w + rest) == [w] + Fields(rest)
  {
    assert blanks + w + rest == blanks + (w + rest);
    FieldsBlanks(blanks, w + rest);
    FieldsWord(w, rest);
  }

  lemma TwoFields(a: string, gap: string, b: string)
    requires IsWord(a) && IsWord(b) && gap != "" && AllSpace(gap)
    ensures Fields(a + gap + b) == [a, b]
  {
    FieldsWord(a, gap + b);
    assert a + gap + b == a + (gap + b);
    FieldsStep(gap, b, "");
    assert gap + b + "" == gap + b;
  }

  /** An indented directive with one argument. */
  lemma Indented(line: string, indent: string, a: string, gap: string, b: string)
    requires AllSpace(indent) && IsWord(a) && IsWord(b) && gap != "" && AllSpace(gap)
    requires line == indent + a + gap + b
    ensures Fields(line) == [a, b]
  {
    assert line == indent + (a + gap + b);
    FieldsBlanks(indent, a + gap + b);
    TwoFields(a, gap, b);
  }

  /** The same with two arguments and whatever follows them. */
  lemma Indented3(line: string, r1: string, r2: string, indent: string, a: string, g1: string, b: string, g2: string, c: string, rest: string)
    requires AllSpace(indent) && IsWord(a) && IsWord(b) && IsWord(c)
    requires g1 != "" && AllSpace(g1) && g2 != "" && AllSpace(g2) && (rest == "" || IsSpace(rest[0]))
    requires line == indent + a + r1 && r1 == g1 + b + r2 && r2 == g2 + c + rest
    ensures Fields(line) == [a] + ([b] + ([c] + Fields(rest)))
  {
    assert r1[0] == g1[0] && r2[0] == g2[0];
    FieldsStep(indent, a, r1);
    FieldsStep(g1, b, r2);
    FieldsStep(g2, c, rest);
  }
}
