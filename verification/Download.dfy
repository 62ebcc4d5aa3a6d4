/** The resumable download: one file, at most ten attempts, each resuming where the file ends. */
module Download {
  import opened Common
  import opened Bytes

  const ATTEMPTS: nat := 10

  // ---- the file

  function Zeros(n: nat): seq<Byte> { seq(n, _ => 0) }

  /** Writing at an offset; a write past the end leaves a hole that reads as zeros. */
  function WriteAt(file: seq<Byte>, pos: nat, data: seq<Byte>): seq<Byte> {
    if data == [] then file
    else if pos > |file| then file + Zeros(pos - |file|) + data
    else file[..pos] + data + if pos + |data| < |file| then file[pos + |data|..] else []
  }

  /** Writing two pieces one behind the other is writing them as one. */
  lemma WriteTwice(file: seq<Byte>, pos: nat, a: seq<Byte>, b: seq<Byte>)
    ensures WriteAt(WriteAt(file, pos, a), pos + |a|, b) == WriteAt(file, pos, a + b)
  {
    if a != [] && b != [] {
      var once := WriteAt(file, pos, a);
      if pos > |file| {
        assert once[..pos + |a|] == once;
        assert file + Zeros(pos - |file|) + a + b == file + Zeros(pos - |file|) + (a + b);
      } else {
        assert once[..pos + |a|] == file[..pos] + a;
        assert file[..pos] + a + b == file[..pos] + (a + b);
        if pos + |a| + |b| < |once| {
          assert once[pos + |a| + |b|..] == file[pos + |a| + |b|..];
        }
      }
    } else {
      assert a + b == if a == [] then b else a;
    }
  }

  // ---- one attempt

  /** How a body ends: all of it arrived, the connection broke, or the disk took only part of a chunk. */
  datatype End = Complete | Cut | DiskFull(part: seq<Byte>)

  datatype Reply =
    | NoConnection(permanent: bool)         // permanent: a rejected certificate or a cancelled context
    | Full(chunks: seq<seq<Byte>>, end: End)     // 200
    | Partial(chunks: seq<seq<Byte>>, end: End)  // 206
    | Unsatisfiable                         // 416
    | OtherStatus

  /** One attempt: the reply, and which local calls fail. */
  datatype Attempt = Attempt(reply: Reply, truncateFails: bool, seekFails: bool, cancelled: bool, statFails: bool)

  datatype Error = Connection | File | Interrupted | Status | ReadBack | Checksum

  datatype Outcome = Retry(error: Error) | Done | GiveUp(error: Error)

  function Flat(chunks: seq<seq<Byte>>): seq<Byte> {
    if chunks == [] then [] else Flat(chunks[..|chunks| - 1]) + chunks[|chunks| - 1]
  }

  /** The file, the progress counter, and what the attempt came to. */
  datatype Result = Result(file: seq<Byte>, written: nat, outcome: Outcome)

  /** The bytes of a body that reach the file. */
  function Sent(chunks: seq<seq<Byte>>, end: End): seq<Byte> { Flat(chunks) + if end.DiskFull? then end.part else [] }

  function Received(file: seq<Byte>, pos: nat, written: nat, chunks: seq<seq<Byte>>, end: End, cancelled: bool): Result {
    Result(WriteAt(file, pos, Sent(chunks, end)), written + |Flat(chunks)|,
      if end.Complete? then Done else if cancelled then GiveUp(Interrupted) else Retry(Interrupted))
  }

  function Once(file: seq<Byte>, written: nat, have: nat, a: Attempt): Result {
    match a.reply
    case NoConnection(permanent) => Result(file, written, if permanent then GiveUp(Connection) else Retry(Connection))
    case Full(chunks, end) =>
      if have > 0 && a.truncateFails then Result(file, written, GiveUp(File))
      else
        var file', written' := if have > 0 then [] else file, if have > 0 then 0 else written;
        if a.seekFails then Result(file', written', GiveUp(File))
        else Received(file', 0, written', chunks, end, a.cancelled)
    case Partial(chunks, end) =>
      if a.seekFails then Result(file, written, GiveUp(File))
      else Received(file, have, written, chunks, end, a.cancelled)
    case Unsatisfiable => Result(file, written, Done)
    case OtherStatus => Result(file, written, GiveUp(Status))
  }

  // ---- the retry loop

  /** The state between attempts; `have` is the offset the next request resumes from. */
  datatype State = State(file: seq<Byte>, written: nat, have: nat, outcome: Outcome)

  function Next(s: State, a: Attempt): State {
    if !s.outcome.Retry? then s
    else
      var r := Once(s.file, s.written, s.have, a);
      State(r.file, r.written, if r.outcome.Retry? && !a.statFails then |r.file| else s.have, r.outcome)
  }

  function Run(s: State, plan: seq<Attempt>): State {
    if plan == [] then s else Next(Run(s, plan[..|plan| - 1]), plan[|plan| - 1])
  }

  /** Before the first attempt: the two size queries may fail separately. */
  function Start(file: seq<Byte>, stat1Fails: bool, stat2Fails: bool): State {
    State(file, if stat1Fails then 0 else |file|, if stat2Fails then 0 else |file|, Retry(Connection))
  }

  // ---- the server

  predicate IsPrefix(a: seq<Byte>, whole: seq<Byte>) { |a| <= |whole| && a == whole[..|a|] }

  /** What a server of one immutable archive may answer to a request for the bytes from `have` on: always the
      whole archive (section 14.2 of RFC 9110), the requested part if there is one (section 15.3.7), and that
      the range cannot be satisfied exactly when it starts at or after the end (section 15.5.17). */
  predicate Legal(archive: seq<Byte>, have: nat, r: Reply) {
    match r
    case Full(chunks, end) => IsPrefix(Sent(chunks, end), archive)
    case Partial(chunks, end) => 0 < have < |archive| && IsPrefix(Sent(chunks, end), archive[have..])
    case Unsatisfiable => have > 0 && have >= |archive|
    case _ => true
  }

  ghost predicate LegalRun(archive: seq<Byte>, s: State, plan: seq<Attempt>) {
    forall i :: 0 <= i < |plan| ==> Legal(archive, Run(s, plan[..i]).have, plan[i].reply)
  }

  /** No attempt both restarts the file and then cannot ask for its size. */
  predicate SizeKnown(plan: seq<Attempt>) { forall i :: 0 <= i < |plan| ==> !(plan[i].reply.Full? && plan[i].statFails) }

  lemma WritePrefix(archive: seq<Byte>, file: seq<Byte>, pos: nat, data: seq<Byte>)
    requires IsPrefix(file, archive) && pos <= |file| && IsPrefix(data, archive[pos..])
    ensures IsPrefix(WriteAt(file, pos, data), archive)
    ensures |WriteAt(file, pos, data)| == Max(|file|, pos + |data|)
  {
  }

  lemma OncePrefix(archive: seq<Byte>, file: seq<Byte>, written: nat, have: nat, a: Attempt)
    requires IsPrefix(file, archive) && have <= |file| && Legal(archive, have, a.reply)
    ensures var r := Once(file, written, have, a); IsPrefix(r.file, archive) && (!a.reply.Full? ==> have <= |r.file|)
  {
    match a.reply
    case Full(chunks, end) =>
      assert archive[0..] == archive;
      WritePrefix(archive, [], 0, Sent(chunks, end));
      WritePrefix(archive, file, 0, Sent(chunks, end));
    case Partial(chunks, end) => WritePrefix(archive, file, have, Sent(chunks, end));
    case _ =>
  }

  /** Whatever sequence of full, partial and refused answers, cut connections, full disks and retries: the file
      is a prefix of the archive after every attempt. (A run cut short after any chunk is itself such a run.) */
  lemma {:induction false} AlwaysAPrefix(archive: seq<Byte>, s: State, plan: seq<Attempt>)
    requires IsPrefix(s.file, archive) && s.have <= |s.file| && LegalRun(archive, s, plan) && SizeKnown(plan)
    ensures var t := Run(s, plan); IsPrefix(t.file, archive) && (t.outcome.Retry? ==> t.have <= |t.file|)
    decreases |plan|
  {
    if plan != [] {
      var k := |plan| - 1;
      LegalFront(archive, s, plan);
      AlwaysAPrefix(archive, s, plan[..k]);
      var t := Run(s, plan[..k]);
      if t.outcome.Retry? { OncePrefix(archive, t.file, t.written, t.have, plan[k]); }
    }
  }

  lemma LegalFront(archive: seq<Byte>, s: State, plan: seq<Attempt>)
    requires LegalRun(archive, s, plan) && plan != []
    ensures var k := |plan| - 1;
      LegalRun(archive, s, plan[..k]) && Legal(archive, Run(s, plan[..k]).have, plan[k].reply)
  {
    var k := |plan| - 1;
    forall i | 0 <= i < k ensures Legal(archive, Run(s, plan[..k][..i]).have, plan[..k][i].reply) {
      assert plan[..k][..i] == plan[..i];
    }
  }

  /** Without the exception the statement is false: a restarted file whose new size is not learnt is resumed at
      the old offset, which leaves a hole. */
  lemma StaleOffsetLeavesHole(archive: seq<Byte>, n: nat)
    requires 1 < n < |archive| && archive[0] != 0
    ensures var s := Start(archive[..n], false, false);
      var plan := [
        Attempt(Full([], Cut), false, false, false, true),
        Attempt(Partial([archive[n..]], Complete), false, false, false, false)];
      LegalRun(archive, s, plan) && !IsPrefix(Run(s, plan).file, archive)
  {
  }

  /** The exact condition for one attempt on a prefix of the archive: the file stays a prefix unless a part is
      appended past its end and the hole covers a byte of the archive that is not zero. */
  lemma HoleExactly(archive: seq<Byte>, file: seq<Byte>, written: nat, have: nat, a: Attempt)
    requires IsPrefix(file, archive) && Legal(archive, have, a.reply)
    ensures IsPrefix(Once(file, written, have, a).file, archive) <==> !LeavesHole(archive, file, have, a)
  {
    if a.reply.Partial? && !a.seekFails && have > |file| {
      var data := Sent(a.reply.chunks, a.reply.end);
      if data != [] {
        var out := WriteAt(file, have, data);
        forall i | 0 <= i < |out| && !(|file| <= i < have) ensures out[i] == archive[i] {
          if have <= i { assert data[i - have] == archive[have..][i - have]; }
        }
        assert forall i :: |file| <= i < have ==> out[i] == 0;
      }
    } else {
      OncePrefixAnyFull(archive, file, written, have, a);
    }
  }

  predicate LeavesHole(archive: seq<Byte>, file: seq<Byte>, have: nat, a: Attempt) {
    && a.reply.Partial? && !a.seekFails && Sent(a.reply.chunks, a.reply.end) != []
    && exists i :: |file| <= i < have && i < |archive| && archive[i] != 0
  }

  lemma OncePrefixAnyFull(archive: seq<Byte>, file: seq<Byte>, written: nat, have: nat, a: Attempt)
    requires IsPrefix(file, archive) && Legal(archive, have, a.reply)
    requires a.reply.Partial? ==> a.seekFails || have <= |file|
    ensures IsPrefix(Once(file, written, have, a).file, archive) && !LeavesHole(archive, file, have, a)
  {
    match a.reply
    case Full(chunks, end) =>
      assert archive[0..] == archive;
      WritePrefix(archive, [], 0, Sent(chunks, end));
      WritePrefix(archive, file, 0, Sent(chunks, end));
    case Partial(chunks, end) => if !a.seekFails { WritePrefix(archive, file, have, Sent(chunks, end)); }
    case _ =>
  }

  // ---- the progress counter

  predicate AllWritten(plan: seq<Attempt>) {
    forall i :: 0 <= i < |plan| ==> !plan[i].statFails && (match plan[i].reply
      case Full(_, end) => !end.DiskFull?
      case Partial(_, end) => !end.DiskFull?
      case _ => true)
  }

  /** As long as sizes can be read and chunks are written whole, the counter is the file's length, whatever the
      server sends. */
  lemma {:induction false} CounterIsLength(file: seq<Byte>, plan: seq<Attempt>)
    requires AllWritten(plan)
    ensures var t := Run(Start(file, false, false), plan); t.written == |t.file| && (t.outcome.Retry? ==> t.have == |t.file|)
  {
    if plan != [] {
      CounterIsLength(file, plan[..|plan| - 1]);
    }
  }

  // ---- the end

  /** Every reply that ends as complete carried all the bytes it announced. */
  ghost predicate Whole(archive: seq<Byte>, s: State, plan: seq<Attempt>) {
    forall i :: 0 <= i < |plan| ==> match plan[i].reply
      case Full(chunks, end) => end.Complete? ==> |Flat(chunks)| == |archive|
      case Partial(chunks, end) => end.Complete? ==> Run(s, plan[..i]).have + |Flat(chunks)| == |archive|
      case _ => true
  }

  /** From any prefix, a run that ends as done has the whole archive: the checksum cannot fail. */
  lemma {:induction false} DoneIsWhole(archive: seq<Byte>, s: State, plan: seq<Attempt>)
    requires s.outcome.Retry? && IsPrefix(s.file, archive) && s.have <= |s.file|
    requires LegalRun(archive, s, plan) && SizeKnown(plan) && Whole(archive, s, plan)
    ensures Run(s, plan).outcome.Done? ==> Run(s, plan).file == archive
    decreases |plan|
  {
    if plan != [] {
      var k := |plan| - 1;
      LegalFront(archive, s, plan);
      assert Whole(archive, s, plan[..k]) by {
        forall i | 0 <= i < k ensures plan[..k][..i] == plan[..i] && plan[..k][i] == plan[i] {}
      }
      DoneIsWhole(archive, s, plan[..k]);
      AlwaysAPrefix(archive, s, plan[..k]);
      var t := Run(s, plan[..k]);
      if t.outcome.Retry? { CompleteIsWhole(archive, t, plan[k]); }
    }
  }

  lemma CompleteIsWhole(archive: seq<Byte>, t: State, a: Attempt)
    requires IsPrefix(t.file, archive) && t.have <= |t.file| && Legal(archive, t.have, a.reply)
    requires match a.reply
      case Full(chunks, end) => end.Complete? ==> |Flat(chunks)| == |archive|
      case Partial(chunks, end) => end.Complete? ==> t.have + |Flat(chunks)| == |archive|
      case _ => true
    ensures var r := Once(t.file, t.written, t.have, a); r.outcome.Done? ==> r.file == archive
  {
  }

  /** Once an attempt ends the loop, later ones do not happen. */
  lemma {:induction false} RunStops(s: State, plan: seq<Attempt>, n: nat)
    requires n <= |plan| && !Run(s, plan[..n]).outcome.Retry?
    ensures Run(s, plan) == Run(s, plan[..n])
    decreases |plan|
  {
    if n < |plan| {
      var k := |plan| - 1;
      assert plan[..k][..n] == plan[..n];
      RunStops(s, plan[..k], n);
    } else {
      assert plan[..n] == plan;
    }
  }

  /** What an attempt comes to, by what was answered: it is over when a whole body was taken or nothing was left to
      ask for; it is worth another try after a passing connection failure, or when the body broke off and nobody
      cancelled; and everything else gives up. */
  lemma OutcomeExactly(file: seq<Byte>, written: nat, have: nat, a: Attempt)
    ensures var o := Once(file, written, have, a).outcome;
      && (o.Done? <==> a.reply.Unsatisfiable? || (Taken(have, a) && a.reply.end.Complete?))
      && (o.Retry? <==> a.reply == NoConnection(false) || (Taken(have, a) && !a.reply.end.Complete? && !a.cancelled))
      && (a.reply == NoConnection(true) ==> o == GiveUp(Connection)) && (a.reply.OtherStatus? ==> o == GiveUp(Status))
  {
  }

  /** A body was answered, and no local call stood in its way. */
  predicate Taken(have: nat, a: Attempt) {
    || (a.reply.Full? && !(have > 0 && a.truncateFails) && !a.seekFails)
    || (a.reply.Partial? && !a.seekFails)
  }

  /** What an attempt does to file and counter: a full answer to a resumed download empties both first; a body that was
      taken lands at its offset, and the counter counts it. */
  lemma AttemptExactly(s: State, a: Attempt)
    requires s.outcome.Retry?
    ensures var t := Next(s, a); var emptied := a.reply.Full? && s.have > 0 && !a.truncateFails;
      && t.file == (
        if Taken(s.have, a) then
          WriteAt(if emptied then [] else s.file, if a.reply.Full? then 0 else s.have, Sent(a.reply.chunks, a.reply.end))
        else if emptied then [] else s.file)
      && t.written == (if emptied then 0 else s.written) + (if Taken(s.have, a) then |Flat(a.reply.chunks)| else 0)
      && (t.outcome.Retry? ==> t.have == if a.statFails then s.have else |t.file|)
  {
  }

  /** Worth another try: a passing connection failure, or a body that broke off. */
  predicate Retryable(a: Attempt) {
    match a.reply
    case NoConnection(permanent) => !permanent
    case Full(_, end) => !end.Complete? && !a.cancelled && !a.truncateFails && !a.seekFails
    case Partial(_, end) => !end.Complete? && !a.cancelled && !a.seekFails
    case _ => false
  }

  /** The attempt brings what is missing: the whole archive, the rest of it, or word that nothing is. */
  predicate Delivers(archive: seq<Byte>, t: State, a: Attempt) {
    match a.reply
    case Full(chunks, end) => end.Complete? && Flat(chunks) == archive && !a.truncateFails && !a.seekFails
    case Partial(chunks, end) => end.Complete? && t.have <= |archive| && Flat(chunks) == archive[t.have..] && !a.seekFails
    case Unsatisfiable => t.file == archive
    case _ => false
  }

  /** Attempt i delivers, after attempts that were all worth another try and left the size known. */
  ghost predicate DeliveredAt(archive: seq<Byte>, s: State, plan: seq<Attempt>, i: nat) {
    && i < |plan| && LegalRun(archive, s, plan[..i]) && SizeKnown(plan[..i])
    && (forall k :: 0 <= k < i ==> Retryable(plan[k]))
    && Delivers(archive, Run(s, plan[..i]), plan[i])
  }

  lemma {:induction false} StillTrying(s: State, plan: seq<Attempt>)
    requires s.outcome.Retry? && forall k :: 0 <= k < |plan| ==> Retryable(plan[k])
    ensures Run(s, plan).outcome.Retry?
    decreases |plan|
  {
    if plan != [] { StillTrying(s, plan[..|plan| - 1]); }
  }

  lemma DeliveryIsWhole(archive: seq<Byte>, t: State, a: Attempt)
    requires t.outcome.Retry? && IsPrefix(t.file, archive) && t.have <= |t.file| && Delivers(archive, t, a)
    ensures Next(t, a).outcome.Done? && Next(t, a).file == archive
  {
    match a.reply
    case Partial(chunks, _) =>
      assert WriteAt(t.file, t.have, Flat(chunks)) == archive;
    case _ =>
  }

  /** From any prefix of the archive the download gets to its end, with the whole archive, as soon as one attempt
      delivers and those before it were worth another try. */
  lemma DeliveryEndsIt(archive: seq<Byte>, s: State, plan: seq<Attempt>, i: nat)
    requires s.outcome.Retry? && IsPrefix(s.file, archive) && s.have <= |s.file| && DeliveredAt(archive, s, plan, i)
    ensures Run(s, plan).outcome.Done? && Run(s, plan).file == archive
  {
    var front := plan[..i];
    AlwaysAPrefix(archive, s, front);
    assert forall k :: 0 <= k < |front| ==> Retryable(front[k]);
    StillTrying(s, front);
    assert plan[..i + 1][..i] == front;
    DeliveryIsWhole(archive, Run(s, front), plan[i]);
    RunStops(s, plan, i + 1);
  }

  /** The file after the first i chunks. */
  function Copied(file: seq<Byte>, pos: nat, chunks: seq<seq<Byte>>, i: nat): seq<Byte>
    requires i <= |chunks|
  {
    if i == 0 then file else WriteAt(Copied(file, pos, chunks, i - 1), pos + |Flat(chunks[..i - 1])|, chunks[i - 1])
  }

  lemma FlatStep(chunks: seq<seq<Byte>>, i: nat)
    requires i < |chunks|
    ensures Flat(chunks[..i + 1]) == Flat(chunks[..i]) + chunks[i]
  {
    assert chunks[..i + 1][..i] == chunks[..i];
  }

  lemma LengthStep(chunks: seq<seq<Byte>>, i: nat)
    requires i < |chunks|
    ensures |Flat(chunks[..i + 1])| == |Flat(chunks[..i])| + |chunks[i]|
  {
    FlatStep(chunks, i);
  }

  lemma {:induction false} CopiedIsWritten(file: seq<Byte>, pos: nat, chunks: seq<seq<Byte>>, i: nat)
    requires i <= |chunks|
    ensures Copied(file, pos, chunks, i) == WriteAt(file, pos, Flat(chunks[..i]))
  {
    if i > 0 {
      var before, once := Flat(chunks[..i - 1]), Copied(file, pos, chunks, i - 1);
      CopiedIsWritten(file, pos, chunks, i - 1);
      FlatStep(chunks, i - 1);
      OneMore(once, file, pos, before, chunks[i - 1], Flat(chunks[..i]));
    }
  }

  lemma OneMore(once: seq<Byte>, file: seq<Byte>, pos: nat, a: seq<Byte>, b: seq<Byte>, both: seq<Byte>)
    requires once == WriteAt(file, pos, a) && both == a + b
    ensures WriteAt(once, pos + |a|, b) == WriteAt(file, pos, both)
  {
    WriteTwice(file, pos, a, b);
  }

  /** Chunk by chunk, and then what a full disk still took, is the whole body at once. */
  lemma CopyEnd(file: seq<Byte>, pos: nat, written: nat, chunks: seq<seq<Byte>>, end: End, cancelled: bool)
    ensures chunks[..|chunks|] == chunks
    ensures var r, last := Received(file, pos, written, chunks, end, cancelled), Copied(file, pos, chunks, |chunks|);
      && r.file == (if end.DiskFull? then WriteAt(last, pos + |Flat(chunks)|, end.part) else last)
      && r.written == written + |Flat(chunks)|
  {
    var last, body := Copied(file, pos, chunks, |chunks|), Flat(chunks);
    CopiedIsWritten(file, pos, chunks, |chunks|);
    assert chunks[..|chunks|] == chunks;
    if end.DiskFull? {
      OneMore(last, file, pos, body, end.part, Sent(chunks, end));
    } else {
      assert body + [] == body;
    }
  }

  class Fetcher {
    var file: seq<Byte>
    var written: nat

    /** Copies a body to the file at an offset, chunk by chunk, counting what was written. */
    method Copy(pos: nat, chunks: seq<seq<Byte>>, end: End, cancelled: bool) returns (o: Outcome)
      modifies this
      ensures Result(file, written, o) == Received(old(file), pos, old(written), chunks, end, cancelled)
    {
      ghost var start := file;
      var at := pos;
      for i := 0 to |chunks|
        invariant at == pos + |Flat(chunks[..i])| && written == old(written) + |Flat(chunks[..i])|
        invariant file == Copied(start, pos, chunks, i)
      {
        LengthStep(chunks, i);
        file := WriteAt(file, at, chunks[i]);
        at, written := at + |chunks[i]|, written + |chunks[i]|;
      }
      CopyEnd(start, pos, old(written), chunks, end, cancelled);
      if end.DiskFull? { file := WriteAt(file, at, end.part); }
      o := if end.Complete? then Done else if cancelled then GiveUp(Interrupted) else Retry(Interrupted);
    }

    /** One attempt. */
    method FetchOnce(have: nat, a: Attempt) returns (o: Outcome)
      modifies this
      ensures Result(file, written, o) == Once(old(file), old(written), have, a)
    {
      match a.reply
      case NoConnection(permanent) => return if permanent then GiveUp(Connection) else Retry(Connection);
      case Full(chunks, end) =>
        if have > 0 {
          if a.truncateFails { return GiveUp(File); }
          file, written := [], 0;
        }
        if a.seekFails { return GiveUp(File); }
        o := Copy(0, chunks, end, a.cancelled);
      case Partial(chunks, end) =>
        if a.seekFails { return GiveUp(File); }
        o := Copy(have, chunks, end, a.cancelled);
      case Unsatisfiable => return Done;
      case OtherStatus => return GiveUp(Status);
    }

    /** The whole download. plan[i] is what attempt i + 1 meets; whatever it is, an error-free exit means the
        file is the archive, and there are at most ten attempts. It does exit so, from any prefix of the archive,
        if one of them delivers and those before it were worth another try. */
    method FetchArchive(plan: seq<Attempt>, stat1Fails: bool, stat2Fails: bool, readFails: bool, archive: seq<Byte>)
        returns (err: Option<Error>, attempts: nat)
      requires |plan| == 10
      modifies this
      ensures err.None? ==> file == archive
      ensures !readFails && IsPrefix(old(file), archive) ==>
        (exists i :: DeliveredAt(archive, Start(old(file), stat1Fails, stat2Fails), plan, i)) ==> err.None?
      ensures var n := |old(file)|;
        var t := Run(State(old(file), if stat1Fails then 0 else n, if stat2Fails then 0 else n, Retry(Connection)), plan);
        && file == t.file && written == t.written
        && err == (
          if !t.outcome.Done? then Some(t.outcome.error)
          else if readFails then Some(ReadBack)
          else if file != archive then Some(Checksum) else None)
      ensures attempts <= 10
      ensures Run(Start(old(file), stat1Fails, stat2Fails), plan[..attempts]).file == file
    {
      ghost var s := Start(file, stat1Fails, stat2Fails);
      forall i | IsPrefix(file, archive) && DeliveredAt(archive, s, plan, i) ensures Run(s, plan).outcome.Done? && Run(s, plan).file == archive {
        DeliveryEndsIt(archive, s, plan, i);
      }
      written := if stat1Fails then 0 else |file|;
      var have: nat := if stat2Fails then 0 else |file|;
      attempts := 0;
      var o := Retry(Connection);
      while attempts < ATTEMPTS && o.Retry?
        invariant attempts <= ATTEMPTS
        invariant Run(s, plan[..attempts]) == State(file, written, have, o)
      {
        assert plan[..attempts + 1][..attempts] == plan[..attempts];
        o := FetchOnce(have, plan[attempts]);
        if o.Retry? && !plan[attempts].statFails { have := |file|; }
        attempts := attempts + 1;
      }
      if o.Retry? {
        assert plan[..attempts] == plan;
      } else {
        RunStops(s, plan, attempts);
      }
      if !o.Done? { return Some(o.error), attempts; }
      if readFails { return Some(ReadBack), attempts; }
      err := if file == archive then None else Some(Checksum);
    }
  }
}
