/** End-of-session detection: the exit marker is looked for in a rolling window over a chunked stream. */
module ExitScan {
  import opened Common
  import opened Text

  const WINDOW: nat := 256
  const BEL: char := '\U{07}'
  const MARKER: string := "\U{1b}]777;vpsmgr-exit="

  // ---- strings.Index and strings.IndexByte

  predicate OccursAt(s: string, m: string, i: int) { 0 <= i && i + |m| <= |s| && s[i..i + |m|] == m }

  function IndexFrom(s: string, m: string, k: nat): (r: int)
    ensures r == -1 || (r >= k && OccursAt(s, m, r))
    ensures forall j :: k <= j && (r == -1 || j < r) ==> !OccursAt(s, m, j)
    decreases |s| - k
  {
    if k + |m| > |s| then -1 else if OccursAt(s, m, k) then k else IndexFrom(s, m, k + 1)
  }

  function Index(s: string, m: string): int { IndexFrom(s, m, 0) }

  function IndexByte(s: string, c: char): (r: int)
    ensures r == -1 ==> c !in s
    ensures r != -1 ==> 0 <= r < |s| && s[r] == c && c !in s[..r]
  {
    if s == "" then -1
    else if s[0] == c then 0
    else
      var r := IndexByte(s[1..], c);
      if r == -1 then -1 else assert s[..r + 1] == [s[0]] + s[1..][..r]; r + 1
  }

  // ---- one look at the window

  /** The last bytes of a stream. */
  function Last(s: string): string { if |s| > WINDOW then s[|s| - WINDOW..] else s }

  /** Nothing yet, or the session is over with the reported status. */
  datatype Seen = Nothing | Over(status: string)

  function Look(window: string, m: string): Seen {
    var i := Index(window, m);
    if i < 0 then Nothing else AfterMarker(window[i + |m|..])
  }

  function AfterMarker(rest: string): Seen {
    var end := IndexByte(rest, BEL);
    if rest == "" || end < 0 then Nothing else Over(rest[..end])
  }

  datatype State = State(tail: string, code: int, dead: bool)

  /** Nothing is read once the session is over. */
  function Next(s: State, m: string, msg: string): State {
    if s.dead then s
    else
      var tail := Last(s.tail + msg);
      Judged(tail, s.code, Look(tail, m))
  }

  function Judged(tail: string, code: int, seen: Seen): State {
    match seen
    case Nothing => State(tail, code, false)
    case Over(status) => State(tail, CodeOf(code, status), true)
  }

  /** A status that is not a number leaves the code as it is. */
  function CodeOf(code: int, status: string): int {
    var n := Atoi(status);
    if n.Some? then n.value else code
  }

  const FRESH: State := State("", -1, false)

  function Run(m: string, chunks: seq<string>): State {
    if chunks == [] then FRESH else Next(Run(m, chunks[..|chunks| - 1]), m, chunks[|chunks| - 1])
  }

  function Cat(chunks: seq<string>): string {
    if chunks == [] then "" else Cat(chunks[..|chunks| - 1]) + chunks[|chunks| - 1]
  }

  // ---- the window is the end of the stream

  lemma LastOfLast(a: string, b: string)
    ensures Last(Last(a) + b) == Last(a + b)
  {
  }

  lemma {:induction false} TailIsWindow(m: string, chunks: seq<string>)
    ensures !Run(m, chunks).dead ==> Run(m, chunks).tail == Last(Cat(chunks)) && Run(m, chunks).code == -1
  {
    if chunks != [] {
      var front := chunks[..|chunks| - 1];
      TailIsWindow(m, front);
      LastOfLast(Cat(front), chunks[|chunks| - 1]);
    }
  }

  /** What a look at the end of all that has arrived finds. */
  function Saw(m: string, chunks: seq<string>): Seen { Look(Last(Cat(chunks)), m) }

  /** Nothing was found after any of the chunks. */
  ghost predicate Quiet(m: string, chunks: seq<string>) {
    forall j :: 0 <= j <= |chunks| ==> Saw(m, chunks[..j]) == Nothing
  }

  lemma {:induction false} QuietRun(m: string, chunks: seq<string>)
    requires Quiet(m, chunks)
    ensures !Run(m, chunks).dead
    decreases |chunks|
  {
    if chunks != [] {
      var k := |chunks| - 1;
      forall j | 0 <= j <= k ensures Saw(m, chunks[..k][..j]) == Nothing { assert chunks[..k][..j] == chunks[..j]; }
      QuietRun(m, chunks[..k]);
      assert chunks[..k + 1] == chunks;
      TailIsWindow(m, chunks[..k]);
      LookNext(m, chunks);
    }
  }

  /** After a quiet run, the next chunk is judged by a look at the end of all that has arrived. */
  lemma LookNext(m: string, chunks: seq<string>)
    requires chunks != [] && !Run(m, chunks[..|chunks| - 1]).dead
    ensures Run(m, chunks).dead <==> Saw(m, chunks).Over?
    ensures Saw(m, chunks).Over? ==> Run(m, chunks).code == CodeOf(-1, Saw(m, chunks).status)
  {
    var front := chunks[..|chunks| - 1];
    TailIsWindow(m, front);
    LastOfLast(Cat(front), chunks[|chunks| - 1]);
  }

  lemma {:induction false} DeadStays(m: string, chunks: seq<string>, n: nat)
    requires n <= |chunks| && Run(m, chunks[..n]).dead
    ensures Run(m, chunks) == Run(m, chunks[..n])
    decreases |chunks|
  {
    if n < |chunks| {
      var k := |chunks| - 1;
      assert chunks[..k][..n] == chunks[..n];
      DeadStays(m, chunks[..k], n);
    } else {
      assert chunks[..n] == chunks;
    }
  }

  // ---- what a look finds

  /** An occurrence in the window is an occurrence in the stream. */
  lemma WindowOccurs(t: string, m: string, i: int)
    requires 0 <= i && |m| > 0
    ensures OccursAt(Last(t), m, i) <==> OccursAt(t, m, |t| - |Last(t)| + i)
  {
  }

  /** The stream: some output, the marker, the status, BEL, and whatever follows. */
  ghost predicate Stream(s: string, m: string, p: nat, status: string) {
    && |m| > 0 && '\U{07}' !in status && OccursAt(s, m, p) && p + |m| + |status| < |s|
    && s[p + |m|..p + |m| + |status|] == status && s[p + |m| + |status|] == '\U{07}'
    && (forall i :: OccursAt(s, m, i) ==> i == p)
  }

  /** Where the marker is in the window when n characters of s have arrived. */
  lemma MarkerInWindow(s: string, m: string, p: nat, status: string, n: nat)
    requires Stream(s, m, p, status) && n <= |s|
    ensures var off := n - |Last(s[..n])|; Index(Last(s[..n]), m) == if p + |m| <= n && off <= p then p - off else -1
  {
    var w, off := Last(s[..n]), n - |Last(s[..n])|;
    forall j | j >= 0 ensures OccursAt(w, m, j) <==> off + j == p && p + |m| <= n {
      WindowOccurs(s[..n], m, j);
      OccursInPrefix(s, m, n, off + j);
    }
    if p + |m| <= n && off <= p { assert OccursAt(w, m, p - off); }
  }

  lemma WindowRest(s: string, n: nat, from: nat)
    requires n <= |s| && n - |Last(s[..n])| <= from <= n
    ensures Last(s[..n])[from - (n - |Last(s[..n])|)..] == s[from..n]
  {
  }

  /** A look when n characters of s have arrived: it ends the session exactly if BEL is among them and the marker
      still in the window. */
  lemma LookAt(s: string, m: string, p: nat, status: string, n: nat)
    requires Stream(s, m, p, status) && n <= |s| && |m| + |status| < WINDOW
    ensures Look(Last(s[..n]), m) ==
      if n > p + |m| + |status| && n <= p + WINDOW then Over(status) else Nothing
  {
    var w := Last(s[..n]);
    MarkerInWindow(s, m, p, status, n);
    if p + |m| <= n <= p + WINDOW {
      WindowRest(s, n, p + |m|);
      RestOf(s, m, p, status, n);
      LookIs(w, m, p - (n - |w|), s[p + |m|..n]);
    } else {
      LookNone(w, m);
    }
  }

  lemma LookIs(w: string, m: string, i: int, rest: string)
    requires Index(w, m) == i >= 0 && w[i + |m|..] == rest
    ensures Look(w, m) == AfterMarker(rest)
  {
  }

  lemma LookNone(w: string, m: string)
    requires Index(w, m) < 0
    ensures Look(w, m) == Nothing
  {
  }

  lemma OccursInPrefix(s: string, m: string, n: nat, i: int)
    requires n <= |s|
    ensures OccursAt(s[..n], m, i) <==> OccursAt(s, m, i) && i + |m| <= n
  {
  }

  lemma {:induction false} IndexByteIs(s: string, c: char, k: nat)
    requires k <= |s| && c !in s[..k] && (k < |s| ==> s[k] == c)
    ensures IndexByte(s, c) == if k < |s| then k else -1
  {
  }

  lemma RestOf(s: string, m: string, p: nat, status: string, n: nat)
    requires Stream(s, m, p, status) && p + |m| <= n <= |s|
    ensures AfterMarker(s[p + |m|..n]) == if n > p + |m| + |status| then Over(status) else Nothing
  {
    var rest, from := s[p + |m|..n], p + |m|;
    if n > from + |status| {
      assert rest[..|status|] == s[from..from + |status|];
      IndexByteIs(rest, BEL, |status|);
    } else {
      assert rest == s[from..from + |status|][..|rest|];
      assert BEL !in rest by { assert forall j :: 0 <= j < |rest| ==> rest[j] == status[j]; }
      IndexByteIs(rest, BEL, |rest|);
    }
  }

  // ---- chunking does not matter

  lemma {:induction false} CatPrefix(chunks: seq<string>, n: nat)
    requires n <= |chunks|
    ensures |Cat(chunks[..n])| <= |Cat(chunks)| && Cat(chunks[..n]) == Cat(chunks)[..|Cat(chunks[..n])|]
    decreases |chunks|
  {
    if n < |chunks| {
      var k := |chunks| - 1;
      assert chunks[..k][..n] == chunks[..n];
      CatPrefix(chunks[..k], n);
    } else {
      assert chunks[..n] == chunks;
    }
  }

  /** How much has arrived with chunk n. */
  function Arrived(chunks: seq<string>, n: nat): nat
    requires n <= |chunks|
  {
    |Cat(chunks[..n])|
  }

  lemma SawAt(m: string, chunks: seq<string>, p: nat, status: string, n: nat)
    requires Stream(Cat(chunks), m, p, status) && n <= |chunks| && |m| + |status| < WINDOW
    ensures Saw(m, chunks[..n]) ==
      if p + |m| + |status| < Arrived(chunks, n) <= p + WINDOW then Over(status) else Nothing
  {
    CatPrefix(chunks, n);
    LookAt(Cat(chunks), m, p, status, Arrived(chunks, n));
  }

  /** Until BEL has arrived the session goes on, however the stream is cut. */
  lemma NotTooSoon(m: string, chunks: seq<string>, p: nat, status: string, n: nat)
    requires Stream(Cat(chunks), m, p, status) && n <= |chunks| && |m| + |status| < WINDOW
    requires Arrived(chunks, n) <= p + |m| + |status|
    ensures !Run(m, chunks[..n]).dead
  {
    forall j | 0 <= j <= n ensures Saw(m, chunks[..n][..j]) == Nothing {
      assert chunks[..n][..j] == chunks[..j];
      SawAt(m, chunks, p, status, j);
      CatPrefix(chunks[..n], j);
    }
    QuietRun(m, chunks[..n]);
  }

  /** The chunk that brings BEL ends the session with exactly the reported status, if and only if it does not
      also push the marker out of the window. */
  lemma EndsExactly(m: string, chunks: seq<string>, p: nat, status: string, n: nat)
    requires Stream(Cat(chunks), m, p, status) && n < |chunks| && |m| + |status| < 256
    requires Arrived(chunks, n) <= p + |m| + |status| < Arrived(chunks, n + 1)
    ensures Run(m, chunks[..n + 1]).dead <==> Arrived(chunks, n + 1) <= p + 256
    ensures Arrived(chunks, n + 1) <= p + 256 ==> Run(m, chunks).dead && Run(m, chunks).code == if Atoi(status).Some? then Atoi(status).value else -1
  {
    NotTooSoon(m, chunks, p, status, n);
    SawAt(m, chunks, p, status, n + 1);
    assert chunks[..n + 1][..n] == chunks[..n];
    LookNext(m, chunks[..n + 1]);
    if Arrived(chunks, n + 1) <= p + 256 { DeadStays(m, chunks, n + 1); }
  }

  /** A marker pushed out by the very chunk that completes it is missed for good. */
  lemma MissedForGood(m: string, chunks: seq<string>, p: nat, status: string, n: nat)
    requires Stream(Cat(chunks), m, p, status) && n < |chunks| && |m| + |status| < 256
    requires Arrived(chunks, n) <= p + |m| + |status| && p + 256 < Arrived(chunks, n + 1)
    ensures !Run(m, chunks).dead
  {
    forall j | 0 <= j <= |chunks| ensures Saw(m, chunks[..j]) == Nothing {
      SawAt(m, chunks, p, status, j);
      if j <= n { ArrivedGrows(chunks, j, n); } else { ArrivedGrows(chunks, n + 1, j); }
    }
    QuietRun(m, chunks);
  }

  lemma ArrivedGrows(chunks: seq<string>, i: nat, j: nat)
    requires i <= j <= |chunks|
    ensures Arrived(chunks, i) <= Arrived(chunks, j)
  {
    assert chunks[..j][..i] == chunks[..i];
    CatPrefix(chunks[..j], i);
  }

  /** The chunk that brings the byte at an offset. */
  lemma {:induction false} Boundary(chunks: seq<string>, k: nat, at: nat) returns (n: nat)
    requires k <= |chunks| && at < Arrived(chunks, k)
    ensures n < k && Arrived(chunks, n) <= at < Arrived(chunks, n + 1)
  {
    if k > 0 && at < Arrived(chunks, k - 1) { n := Boundary(chunks, k - 1, at); } else { n := k - 1; }
  }

  /** A stream that ends in the marker, a status and BEL: the session is over once all of it has arrived, with
      that status, and not before, for every way to cut the stream. */
  lemma AnyChunking(m: string, chunks: seq<string>, p: nat, status: string)
    requires Stream(Cat(chunks), m, p, status) && |m| + |status| < 256
    requires |Cat(chunks)| == p + |m| + |status| + 1
    ensures Run(m, chunks).dead && Run(m, chunks).code == if Atoi(status).Some? then Atoi(status).value else -1
    ensures forall n :: 0 <= n <= |chunks| && |Cat(chunks[..n])| < |Cat(chunks)| ==> !Run(m, chunks[..n]).dead
  {
    forall n | 0 <= n <= |chunks| && |Cat(chunks[..n])| < |Cat(chunks)| ensures !Run(m, chunks[..n]).dead {
      NotTooSoon(m, chunks, p, status, n);
    }
    assert chunks[..|chunks|] == chunks;
    var n := Boundary(chunks, |chunks|, p + |m| + |status|);
    ArrivedGrows(chunks, n + 1, |chunks|);
    EndsExactly(m, chunks, p, status, n);
  }

  /** A stream without the marker never ends the session. */
  lemma NoMarkerNoEnd(m: string, chunks: seq<string>)
    requires |m| > 0 && forall i :: !OccursAt(Cat(chunks), m, i)
    ensures !Run(m, chunks).dead
  {
    forall j | 0 <= j <= |chunks| ensures Saw(m, chunks[..j]) == Nothing {
      CatPrefix(chunks, j);
      var t := Cat(chunks[..j]);
      forall i | i >= 0 ensures !OccursAt(Last(t), m, i) {
        WindowOccurs(t, m, i);
        OccursInPrefix(Cat(chunks), m, |t|, |t| - |Last(t)| + i);
      }
    }
    QuietRun(m, chunks);
  }

  /** The status the wrapper prints is a decimal number, and that number is the code. */
  lemma PrintedStatus(n: nat)
    requires n < 256
    ensures '\U{07}' !in Digits(n) && |Digits(n)| <= 3 && Atoi(Digits(n)) == Some(n)
  {
    AtoiDigits(n);
    if n >= 10 { assert |Digits(n)| == |Digits(n / 10)| + 1; }
    if n >= 100 { assert |Digits(n / 10)| == |Digits(n / 10 / 10)| + 1; }
  }

  lemma PrintedStream(s: string, out: string, m: string, status: string)
    requires s == out + m + status + "\U{07}" && m != "" && '\U{07}' !in status
    requires forall i :: OccursAt(s, m, i) ==> i == |out|
    ensures Stream(s, m, |out|, status) && |s| == |out| + |m| + |status| + 1
  {
    var p, q := |out|, |out| + |m|;
    assert s == out + (m + (status + "\U{07}"));
    assert s[p..q] == m && s[q..q + |status|] == status && s[q + |status|] == '\U{07}';
  }

  /** What the wrapper prints at the end of a session, after any output without the marker, ends the session with its
      exit code once all of it has arrived, and no sooner, however it is cut. */
  lemma PrintedExitIsRead(chunks: seq<string>, out: string, n: nat)
    requires n < 256 && Cat(chunks) == out + "\U{1b}]777;vpsmgr-exit=" + Digits(n) + "\U{07}"
    requires forall i :: OccursAt(Cat(chunks), "\U{1b}]777;vpsmgr-exit=", i) ==> i == |out|
    ensures Run(MARKER, chunks).dead && Run(MARKER, chunks).code == n
    ensures forall k :: 0 <= k <= |chunks| && |Cat(chunks[..k])| < |Cat(chunks)| ==> !Run(MARKER, chunks[..k]).dead
  {
    PrintedStatus(n);
    PrintedStream(Cat(chunks), out, MARKER, Digits(n));
    AnyChunking(MARKER, chunks, |out|, Digits(n));
  }

  // ---- the session

  method Scan(window: string, m: string) returns (seen: Seen)
    ensures seen == Look(window, m)
  {
    var i := Index(window, m);
    if i < 0 { return Nothing; }
    var rest := window[i + |m|..];
    if |rest| == 0 { return Nothing; }
    var end := IndexByte(rest, BEL);
    if end < 0 { return Nothing; }
    seen := Over(rest[..end]);
  }

  class Pty {
    const marker: string
    var tail: string
    var code: int
    var dead: bool

    constructor ()
      ensures marker == MARKER && tail == "" && code == -1 && !dead
    {
      marker, tail, code, dead := MARKER, "", -1, false;
    }

    method Append(msg: string)
      modifies this`tail
      ensures tail == Last(old(tail) + msg)
    {
      tail := tail + msg;
      if |tail| > WINDOW { tail := tail[|tail| - WINDOW..]; }
    }

    method ScanExit(msg: string)
      requires !dead
      modifies this
      ensures tail == Last(old(tail) + msg)
      ensures State(tail, code, dead) == Judged(tail, old(code), Look(tail, marker))
    {
      Append(msg);
      var seen := Scan(tail, marker);
      if seen.Over? {
        var n := Atoi(seen.status);
        if n.Some? { code := n.value; }
        dead := true;
      }
    }

    /** The read loop: it stops with the session. */
    method Read(chunks: seq<string>)
      requires tail == "" && code == -1 && !dead
      modifies this
      ensures State(tail, code, dead) == Run(marker, chunks)
    {
      var i := 0;
      while i < |chunks| && !dead
        invariant i <= |chunks| && State(tail, code, dead) == Run(marker, chunks[..i])
      {
        assert chunks[..i + 1][..i] == chunks[..i];
        ScanExit(chunks[i]);
        i := i + 1;
      }
      if dead { DeadStays(marker, chunks, i); } else { assert chunks[..i] == chunks; }
    }
  }
}
