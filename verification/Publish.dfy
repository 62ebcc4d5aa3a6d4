/** Publishing a HAProxy generation: write a release directory, switch the `current` link to it, check
    it, restore or record it, prune. Every step that can fail is given as part of the input. */
module Publish {
  import opened Common
  import opened Sorting
  import opened Text
  import opened LineText
  import opened StringOrder
  import opened Domains
  import opened Routing

  datatype File = DomainsCfg | HttpMap | SniMap | Manifest

  type Release = map<File, string>

  /** The directory tree: release directories by number, the link, and the recorded number (None when
      the file is missing or does not hold a non-negative integer). */
  datatype Layout = Layout(releases: map<nat, Release>, current: Option<nat>, counter: Option<nat>)

  // ---- contents of a release

  /** The fixed parts of a generation's files, and its time stamp. */
  datatype Context = Context(mapHeader: seq<string>, cfgHeader: seq<string>, stamp: string)

  function Named(ds: seq<Domain>): seq<string> {
    seq(|ds|, i requires 0 <= i < |ds| => ds[i].name)
  }

  function NameLines(names: seq<string>): seq<string> {
    seq(|names|, i requires 0 <= i < |names| => "domain: " + names[i])
  }

  function ManifestText(gen: nat, ds: seq<Domain>, c: Context): string {
    Unlines(["generation: " + Digits(gen), "domains: " + Digits(|ds|), "created: " + c.stamp]
            + NameLines(Sort(Named(ds), StrLeq)))
  }

  /** The manifest read line by line: the number, how many domains, the time, and every name once, in order. */
  lemma ManifestReads(gen: nat, ds: seq<Domain>, c: Context)
    requires Table(ds) && '\n' !in c.stamp
    ensures exists names ::
      && SortedBy(names, StrLeq) && multiset(names) == multiset(Named(ds))
      && Split(ManifestText(gen, ds, c), '\n') ==
        ["generation: " + Digits(gen), "domains: " + Digits(|ds|), "created: " + c.stamp]
        + seq(|names|, i requires 0 <= i < |names| => "domain: " + names[i]) + [""]
  {
    var names := Sort(Named(ds), StrLeq);
    StrPreorder();
    SortSorted(Named(ds), StrLeq);
    SameElements(Named(ds), names);
    OneLineNames(ds, names);
    DigitsOneLine(Digits(gen));
    DigitsOneLine(Digits(|ds|));
    ManifestLines(Digits(gen), Digits(|ds|), c.stamp, names);
  }

  lemma ManifestLines(gen: string, count: string, stamp: string, names: seq<string>)
    requires '\n' !in gen && '\n' !in count && '\n' !in stamp
    requires forall i :: 0 <= i < |names| ==> '\n' !in NameLines(names)[i]
    ensures Split(Unlines(["generation: " + gen, "domains: " + count, "created: " + stamp] + NameLines(names)), '\n') ==
      ["generation: " + gen, "domains: " + count, "created: " + stamp] + NameLines(names) + [""]
  {
    SplitUnlines(["generation: " + gen, "domains: " + count, "created: " + stamp] + NameLines(names));
  }

  lemma OneLineNames(ds: seq<Domain>, names: seq<string>)
    requires Table(ds) && forall n :: n in names ==> n in Named(ds)
    ensures forall i :: 0 <= i < |names| ==> '\n' !in NameLines(names)[i]
  {
    forall i | 0 <= i < |names| ensures '\n' !in NameLines(names)[i] {
      assert names[i] in Named(ds);
      CanonicalIsWord(names[i]);
      NoSpaceOneLine(names[i]);
    }
  }

  lemma DigitsOneLine(s: string)
    requires AllDigits(s)
    ensures '\n' !in s
  {
  }

  datatype Texts = Texts(domains: string, http: string, sni: string, manifest: string)

  function FilesFrom(t: Texts): Release {
    map[DomainsCfg := t.domains, HttpMap := t.http, SniMap := t.sni, Manifest := t.manifest]
  }

  /** The four files of a complete release for these domains. */
  function FilesOf(gen: nat, ds: seq<Domain>, c: Context): Release {
    FilesFrom(Texts(DomainsText(c.cfgHeader, ds), MapText(c.mapHeader, ds, NameFor(Http)),
      MapText(c.mapHeader, ds, NameFor(Tls)), ManifestText(gen, ds, c)))
  }

  ghost predicate Complete(r: Release) {
    exists gen, ds, c :: r == FilesOf(gen, ds, c)
  }

  /** What HAProxy reads through the link is a fully written release, or nothing. */
  ghost predicate Serving(l: Layout) {
    l.current.Some? ==> l.current.value in l.releases && Complete(l.releases[l.current.value])
  }

  predicate Dangling(l: Layout) { l.current.Some? && l.current.value !in l.releases }

  function NextGeneration(l: Layout): nat { if l.counter.Some? then l.counter.value + 1 else 1 }

  // ---- what can go wrong

  /** A write either completes or fails, leaving no file or some text behind. */
  datatype Write = Done | Failed(left: Option<string>)

  datatype Faults = Faults(
    mkReleases: bool, mkDir: bool, domains: Write, mkMaps: bool, http: Write, sni: Write, manifest: Write,
    syncDir: bool,          // fsync of the finished release
    link: bool,             // creating or renaming the new link
    linkSync: bool,         // fsync after the rename has already happened
    rejected: bool,         // the configuration check
    restore: bool,          // putting the previous link back after a rejection
    counter: bool,          // recording the number ...
    counterLeft: Option<nat>, // ... and what the file then holds
    cleanup: bool,          // removing the failed release
    readDir: bool,          // listing the releases to prune ...
    keepAlive: set<nat>)    // ... and the directories that cannot be removed

  /** The release directory was made. */
  predicate Started(f: Faults) { !f.mkReleases && !f.mkDir }

  /** Every file was written and synced. */
  predicate Written(f: Faults) {
    Started(f) && f.domains.Done? && !f.mkMaps && f.http.Done? && f.sni.Done? && f.manifest.Done? && !f.syncDir
  }

  /** The link was renamed onto the new release. */
  predicate Switched(f: Faults) { Written(f) && !f.link }

  predicate Checked(f: Faults) { Switched(f) && !f.linkSync && !f.rejected }

  predicate Accepted(f: Faults) { Checked(f) && !f.counter }

  /** The failures after which the link is left on a release that is then removed. */
  predicate Stranded(f: Faults) {
    Switched(f) && (f.linkSync || (f.rejected && f.restore) || (!f.rejected && f.counter))
  }

  // ---- pruning

  const KEEP: nat := 3

  ghost function Above(gens: set<nat>, g: nat): set<nat> { set h | h in gens && h > g }

  ghost function Newer(gens: set<nat>, g: nat): nat { |Above(gens, g)| }

  ghost predicate Kept(gens: set<nat>, current: nat, f: Faults, g: nat) {
    g in gens && (g == current || Newer(gens, g) < KEEP || f.readDir || g in f.keepAlive)
  }

  ghost predicate Pruned(before: map<nat, Release>, after: map<nat, Release>, current: nat, f: Faults) {
    && (forall g :: g in after <==> Kept(before.Keys, current, f, g))
    && (forall g :: g in after ==> after[g] == before[g])
  }

  // ---- the contract of one publication

  /** How the tree stands after a publication of these files, fault by fault. */
  ghost predicate After(l: Layout, l': Layout, gen: nat, files: Release, f: Faults) {
    if Accepted(f) then
      && l'.current == Some(gen) && l'.counter == Some(gen)
      && Pruned(l.releases[gen := files], l'.releases, gen, f)
    else if !Started(f) then
      l' == l
    else
      && l'.current == (if Stranded(f) then Some(gen) else l.current)
      && l'.counter == (if Checked(f) then f.counterLeft else l.counter)
      && l'.releases - {gen} == l.releases - {gen}
      && (gen in l'.releases <==> f.cleanup)
  }

  lemma {:induction false} Largest(s: set<nat>) returns (g: nat)
    requires s != {}
    ensures g in s && forall h :: h in s ==> h <= g
  {
    var x :| x in s;
    g := x;
    var rest := s - {x};
    if rest != {} {
      var y := Largest(rest);
      if x < y { g := y; }
    }
    forall h | h in s ensures h <= g { assert h == x || h in rest; }
  }

  lemma NewerThanMaximum(all: set<nat>, done: set<nat>, rest: set<nat>, g: nat)
    requires all == done + rest && g in rest
    requires forall d, r :: d in done && r in rest ==> r < d
    requires forall h :: h in rest ==> h <= g
    ensures Newer(all, g) == |done|
  {
    assert Above(all, g) == done;
  }

  ghost function Keepers(gens: set<nat>, current: nat, f: Faults): set<nat> {
    set g | g in gens && Kept(gens, current, f, g)
  }

  /** The releases numbered above `rest` have been decided, the others are still there. */
  ghost predicate PrunedDownTo<V>(all: map<nat, V>, left: map<nat, V>, done: set<nat>, rest: set<nat>,
                               keep: set<nat>)
  {
    && done + rest == all.Keys && done !! rest
    && (forall d, r :: d in done && r in rest ==> r < d)
    && left.Keys == rest + done * keep
    && (forall g :: g in left ==> g in all && left[g] == all[g])
  }

  lemma KeepOne(all: set<nat>, done: set<nat>, rest: set<nat>, current: nat, f: Faults, g: nat)
    requires all == done + rest && g in rest && !f.readDir
    requires forall d, r :: d in done && r in rest ==> r < d
    requires forall h :: h in rest ==> h <= g
    ensures g in Keepers(all, current, f) <==> g == current || |done| < KEEP || g in f.keepAlive
  {
    NewerThanMaximum(all, done, rest, g);
  }

  lemma SetsAfterOne(done: set<nat>, rest: set<nat>, keep: set<nat>, g: nat)
    requires g in rest && done !! rest
    ensures (rest - {g}) + (done + {g}) * keep
         == if g in keep then rest + done * keep else (rest + done * keep) - {g}
  {
  }

  lemma PruneOne<V>(all: map<nat, V>, left: map<nat, V>, done: set<nat>, rest: set<nat>, keep: set<nat>, g: nat)
    requires PrunedDownTo(all, left, done, rest, keep)
    requires g in rest && forall h :: h in rest ==> h <= g
    ensures PrunedDownTo(all, if g in keep then left else left - {g}, done + {g}, rest - {g}, keep)
    ensures |done + {g}| == |done| + 1
  {
    var left' := if g in keep then left else left - {g};
    SetsAfterOne(done, rest, keep, g);
    assert left'.Keys == if g in keep then left.Keys else left.Keys - {g};
    assert (done + {g}) + (rest - {g}) == all.Keys;
  }

  lemma FourFiles(r: Release, a: string, b: string, c: string, d: string)
    ensures r[DomainsCfg := a][HttpMap := b][SniMap := c][Manifest := d]
         == map[DomainsCfg := a, HttpMap := b, SniMap := c, Manifest := d]
  {
    var x := r[DomainsCfg := a][HttpMap := b][SniMap := c][Manifest := d];
    var y := map[DomainsCfg := a, HttpMap := b, SniMap := c, Manifest := d];
    forall k: File ensures k in x && k in y && x[k] == y[k] {
      match k { case DomainsCfg => case HttpMap => case SniMap => case Manifest => }
    }
    assert x.Keys == y.Keys;
  }

  /** A state in which readers see either what they saw before, untouched, or the finished new release. */
  ghost predicate OnTrack(before: Layout, s: Layout, gen: nat, files: Release) {
    || (s.current == before.current && SameCurrent(before, s.releases))
    || (s.current == Some(gen) && gen in s.releases && s.releases[gen] == files)
  }

  /** Every state since `from` is on track, but for the last one when the publication is spoiled. Nothing is
      promised when the new number is the one `current` already names. */
  ghost predicate TracksSince(before: Layout, gen: nat, files: Release, trace: seq<Layout>, from: nat, spoiled: bool) {
    before.current != Some(gen) ==>
      forall i :: from <= i < |trace| ==> OnTrack(before, trace[i], gen, files) || (spoiled && i == |trace| - 1)
  }

  ghost predicate SameCurrent(before: Layout, releases: map<nat, Release>) {
    before.current.Some? && before.current.value in before.releases ==>
      before.current.value in releases && releases[before.current.value] == before.releases[before.current.value]
  }

  /** The highest number of a set of releases, as the descending sort visits it next. */
  method Highest(rest: set<nat>) returns (g: nat)
    requires rest != {}
    ensures g in rest && forall h :: h in rest ==> h <= g
  {
    ghost var m := Largest(rest);
    assert m in rest;
    g :| g in rest && forall h :: h in rest ==> h <= g;
  }

  class Proxy {
    var layout: Layout
    ghost var trace: seq<Layout>  // every state the tree goes through

    constructor (l: Layout)
      ensures layout == l && trace == [l]
    {
      layout, trace := l, [l];
    }

    /** One atomic change of the tree. */
    method Step(l: Layout)
      modifies this
      ensures layout == l && trace == old(trace) + [l]
    {
      layout, trace := l, trace + [l];
    }

    method WriteFile(gen: nat, file: File, text: string, w: Write) returns (ok: bool)
      requires gen in layout.releases
      modifies this
      ensures ok == w.Done?
      ensures layout.current == old(layout.current) && layout.counter == old(layout.counter)
      ensures gen in layout.releases && layout.releases - {gen} == old(layout.releases) - {gen}
      ensures ok ==> layout.releases[gen] == old(layout.releases[gen])[file := text]
      ensures trace == old(trace) + [layout]
    {
      var r := layout.releases[gen];
      match w {
        case Done => r := r[file := text];
        case Failed(None) => r := r - {file};
        case Failed(Some(left)) => r := r[file := left];
      }
      Step(layout.(releases := layout.releases[gen := r]));
      ok := w.Done?;
    }

    /** Only the release `gen` was touched since `before`, and every state since then shows that. */
    ghost predicate Touching(before: Layout, gen: nat, from: nat)
      reads this
    {
      && layout.current == before.current && layout.counter == before.counter
      && layout.releases - {gen} == before.releases - {gen}
      && gen in layout.releases
      && from <= |trace|
      && (forall i :: from <= i < |trace| ==>
            trace[i].current == before.current && trace[i].releases - {gen} == before.releases - {gen})
    }

    /** Fills the new release with its four texts, one file after the other. */
    method WriteTexts(gen: nat, t: Texts, f: Faults, ghost before: Layout, ghost from: nat) returns (ok: bool)
      requires Started(f) && Touching(before, gen, from)
      modifies this
      ensures Touching(before, gen, from) && old(trace) <= trace
      ensures ok == Written(f)
      ensures ok ==> layout.releases[gen] == FilesFrom(t)
    {
      ghost var r := layout.releases[gen];
      ok := WriteFile(gen, DomainsCfg, t.domains, f.domains);
      if !ok || f.mkMaps { return false; }
      ok := WriteFile(gen, HttpMap, t.http, f.http);
      if !ok { return; }
      ok := WriteFile(gen, SniMap, t.sni, f.sni);
      if !ok { return; }
      ok := WriteFile(gen, Manifest, t.manifest, f.manifest);
      if !ok || f.syncDir { return false; }
      FourFiles(r, t.domains, t.http, t.sni, t.manifest);
    }

    /** Renders and writes the new release. On success it holds exactly the four files. */
    method WriteRelease(gen: nat, ds: seq<Domain>, c: Context, f: Faults, ghost before: Layout, ghost from: nat)
        returns (ok: bool)
      requires Started(f) && Touching(before, gen, from)
      modifies this
      ensures Touching(before, gen, from) && old(trace) <= trace
      ensures ok == Written(f)
      ensures ok ==> layout.releases[gen] == FilesOf(gen, ds, c)
    {
      var domains := RenderDomains(c.cfgHeader, ds);
      var http := RenderMap(c.mapHeader, ds, NameFor(Http));
      var sni := RenderMap(c.mapHeader, ds, NameFor(Tls));
      ok := WriteTexts(gen, Texts(domains, http, sni, ManifestText(gen, ds, c)), f, before, from);
    }

    /** What the deferred function does when the publication did not succeed. */
    method RemoveRelease(gen: nat, f: Faults)
      modifies this
      ensures layout.current == old(layout.current) && layout.counter == old(layout.counter)
      ensures layout.releases == if f.cleanup then old(layout.releases) else old(layout.releases) - {gen}
      ensures trace == old(trace) + [layout]
    {
      if f.cleanup {
        Step(layout);
      } else {
        Step(layout.(releases := layout.releases - {gen}));
      }
    }

    /** From the switch of the link to the end, for a release that is completely written. */
    method SwitchAndCheck(gen: nat, f: Faults, ghost files: Release) returns (ok: bool)
      requires Written(f) && gen in layout.releases && layout.releases[gen] == files
      modifies this
      ensures ok == Accepted(f) && old(trace) <= trace
      ensures ok ==> layout.current == Some(gen) && layout.counter == Some(gen)
      ensures ok ==> Pruned(old(layout.releases), layout.releases, gen, f)
      ensures !ok ==> layout.releases == if f.cleanup then old(layout.releases) else old(layout.releases) - {gen}
      ensures !ok ==> layout.current == if Stranded(f) then Some(gen) else old(layout.current)
      ensures !ok ==> layout.counter == if Checked(f) then f.counterLeft else old(layout.counter)
      ensures TracksSince(old(layout), gen, files, trace, |old(trace)|, Stranded(f) && !f.cleanup)
    {
      if f.link {
        RemoveRelease(gen, f);
        return false;
      }
      var prev := layout.current;
      Step(layout.(current := Some(gen)));
      if f.linkSync {
        RemoveRelease(gen, f);
        return false;
      }
      if f.rejected {
        if !f.restore { Step(layout.(current := prev)); }
        RemoveRelease(gen, f);
        return false;
      }
      if f.counter {
        Step(layout.(counter := f.counterLeft));
        RemoveRelease(gen, f);
        return false;
      }
      Step(layout.(counter := Some(gen)));
      PruneOldReleases(gen, f);
      return true;
    }

    /** Everything after the files were attempted. */
    method Finish(gen: nat, wrote: bool, f: Faults, ghost files: Release, ghost before: Layout, ghost from: nat)
        returns (ok: bool)
      requires Started(f) && wrote == Written(f) && Touching(before, gen, from)
      requires wrote ==> layout.releases[gen] == files
      modifies this
      ensures ok == Accepted(f) && old(trace) <= trace
      ensures After(before, layout, gen, files, f)
      ensures TracksSince(before, gen, files, trace, from, Stranded(f) && !f.cleanup)
    {
      if !wrote {
        RemoveRelease(gen, f);
        UntouchedIsOnTrack(before, gen, files, trace, from);
        return false;
      }
      UntouchedIsOnTrack(before, gen, files, trace, from);
      OneRelease(before.releases, layout.releases, gen, files);
      ghost var mid, here := layout, trace;
      ok := SwitchAndCheck(gen, f, files);
      StillOnTrack(before, mid, gen, files, here, trace, from, Stranded(f) && !f.cleanup);
    }

    /** Publishes a new generation for these domains; f says which steps fail. */
    method PublishAll(ds: seq<Domain>, c: Context, f: Faults) returns (ok: bool)
      modifies this
      ensures ok <==>
        && !f.mkReleases && !f.mkDir && f.domains.Done? && !f.mkMaps && f.http.Done? && f.sni.Done? && f.manifest.Done?
        && !f.syncDir && !f.link && !f.linkSync && !f.rejected && !f.counter
      ensures var gen := if old(layout).counter.Some? then old(layout).counter.value + 1 else 1;
        After(old(layout), layout, gen, FilesOf(gen, ds, c), f)
      // Whatever moment the process dies at, readers see the old release or the whole new one.
      ensures old(trace) <= trace
      ensures var gen := NextGeneration(old(layout));
        TracksSince(old(layout), gen, FilesOf(gen, ds, c), trace, |old(trace)|, Stranded(f) && !f.cleanup)
    {
      ghost var before, from := layout, |trace|;
      if f.mkReleases { return false; }
      var gen := NextGeneration(layout);
      if f.mkDir { return false; }
      Step(layout.(releases := layout.releases[gen := if gen in layout.releases then layout.releases[gen] else map[]]));
      var wrote := WriteRelease(gen, ds, c, f, before, from);
      ok := Finish(gen, wrote, f, FilesOf(gen, ds, c), before, from);
    }

    /** Walks the releases from the newest number down and removes all but the first three and `current`. */
    method PruneOldReleases(current: nat, f: Faults)
      modifies this
      ensures layout.current == old(layout.current) && layout.counter == old(layout.counter)
      ensures Pruned(old(layout.releases), layout.releases, current, f)
      ensures Logged(old(layout), current, old(trace), trace)
    {
      if f.readDir { return; }
      ghost var all := layout.releases;
      ghost var keep := Keepers(all.Keys, current, f);
      var rest := layout.releases.Keys;
      ghost var done := {};
      var kept := 0;
      while rest != {}
        invariant kept == |done| && PrunedDownTo(all, layout.releases, done, rest, keep)
        invariant layout.counter == old(layout.counter) && KeepsOne(old(layout), layout, current)
        invariant Logged(old(layout), current, old(trace), trace)
        decreases rest
      {
        var g := Highest(rest);
        KeepOne(all.Keys, done, rest, current, f, g);
        PruneOne(all, layout.releases, done, rest, keep, g);
        kept := kept + 1;
        if g != current && kept > KEEP && g !in f.keepAlive {
          RemoveKeepsOne(old(layout), layout, current, g);
          LogStep(old(layout), current, old(trace), trace, layout.(releases := layout.releases - {g}));
          Step(layout.(releases := layout.releases - {g}));
        }
        rest, done := rest - {g}, done + {g};
      }
      PrunedAtEnd(all, layout.releases, current, f);
    }
  }

  lemma PrunedAtEnd(all: map<nat, Release>, left: map<nat, Release>, current: nat, f: Faults)
    requires left.Keys == all.Keys * Keepers(all.Keys, current, f)
    requires forall g :: g in left ==> g in all && left[g] == all[g]
    ensures Pruned(all, left, current, f)
  {
  }

  lemma OneRelease(before: map<nat, Release>, after: map<nat, Release>, gen: nat, files: Release)
    requires after - {gen} == before - {gen} && gen in after && after[gen] == files
    ensures after == before[gen := files]
  {
    var b := before[gen := files];
    forall g ensures g in after <==> g in b {
      assert g in after - {gen} <==> g in before - {gen};
    }
    forall g | g in after ensures after[g] == b[g] {
      if g != gen { assert (after - {gen})[g] == (before - {gen})[g]; }
    }
  }

  /** Tracking the second phase from its own start is tracking it from the very start. */
  lemma StillOnTrack(before: Layout, mid: Layout, gen: nat, files: Release, here: seq<Layout>, trace: seq<Layout>,
                     from: nat, spoiled: bool)
    requires from <= |here| && here <= trace
    requires mid.current == before.current && mid.releases == before.releases[gen := files]
    requires TracksSince(before, gen, files, here, from, false)
    requires TracksSince(mid, gen, files, trace, |here|, spoiled)
    ensures TracksSince(before, gen, files, trace, from, spoiled)
  {
  }

  ghost predicate KeepsOne(l: Layout, s: Layout, g: nat) {
    && s.current == l.current
    && (g in l.releases ==> g in s.releases && s.releases[g] == l.releases[g])
  }

  ghost predicate Logged(l: Layout, g: nat, t0: seq<Layout>, t: seq<Layout>) {
    t0 <= t && forall i :: |t0| <= i < |t| ==> KeepsOne(l, t[i], g)
  }

  lemma LogStep(l: Layout, g: nat, t0: seq<Layout>, t: seq<Layout>, s: Layout)
    requires Logged(l, g, t0, t) && KeepsOne(l, s, g)
    ensures Logged(l, g, t0, t + [s])
  {
  }

  lemma RemoveKeepsOne(l: Layout, s: Layout, g: nat, h: nat)
    requires KeepsOne(l, s, g) && g != h
    ensures KeepsOne(l, s.(releases := s.releases - {h}), g)
  {
  }

  lemma UntouchedCurrent(before: Layout, gen: nat, releases: map<nat, Release>)
    requires releases - {gen} == before.releases - {gen} && before.current != Some(gen)
    ensures SameCurrent(before, releases)
  {
    if before.current.Some? && before.current.value in before.releases {
      var v := before.current.value;
      assert v in before.releases - {gen} && (before.releases - {gen})[v] == before.releases[v];
      assert v in releases - {gen} && (releases - {gen})[v] == releases[v];
    }
  }

  lemma UntouchedIsOnTrack(before: Layout, gen: nat, files: Release, trace: seq<Layout>, from: nat)
    requires forall i :: from <= i < |trace| ==>
      trace[i].current == before.current && trace[i].releases - {gen} == before.releases - {gen}
    ensures forall spoiled :: TracksSince(before, gen, files, trace, from, spoiled)
  {
    if before.current != Some(gen) {
      forall i | from <= i < |trace| ensures OnTrack(before, trace[i], gen, files) {
        UntouchedCurrent(before, gen, trace[i].releases);
      }
    }
  }

  // ---- what the contract means

  lemma OnTrackServes(l: Layout, s: Layout, gen: nat, ds: seq<Domain>, c: Context)
    requires Serving(l) && OnTrack(l, s, gen, FilesOf(gen, ds, c))
    ensures Serving(s)
  {
  }

  /** At no moment of a publication does the link name anything but a fully written release; the one
      exception is the very last step of a stranded one. */
  lemma EveryMomentServes(l: Layout, gen: nat, ds: seq<Domain>, c: Context, trace: seq<Layout>, from: nat, spoiled: bool)
    requires Serving(l) && l.current != Some(gen)
    requires TracksSince(l, gen, FilesOf(gen, ds, c), trace, from, spoiled)
    ensures forall i :: from <= i < |trace| ==> Serving(trace[i]) || (spoiled && i == |trace| - 1)
  {
    forall i | from <= i < |trace| ensures Serving(trace[i]) || (spoiled && i == |trace| - 1) {
      if OnTrack(l, trace[i], gen, FilesOf(gen, ds, c)) { OnTrackServes(l, trace[i], gen, ds, c); }
    }
  }

  ghost predicate Unchanged(l: Layout, l': Layout) {
    l'.current == l.current && SameCurrent(l, l'.releases) && l'.counter == l.counter
  }

  /** All or nothing: a publication that is neither accepted nor stranded leaves the link, the release it
      names and the recorded number as they were. */
  lemma FailureChangesNothing(l: Layout, l': Layout, files: Release, f: Faults)
    requires l.current != Some(NextGeneration(l))
    requires After(l, l', NextGeneration(l), files, f) && !Accepted(f) && !Stranded(f)
    ensures Unchanged(l, l')
  {
    if Started(f) { UntouchedCurrent(l, NextGeneration(l), l'.releases); }
  }

  const NOTHING_FAILS: Faults :=
    Faults(false, false, Done, false, Done, Done, Done, false, false, false, false, false, false, None, false, false, {})

  /** Whatever fails, short of stranding the link, changes nothing readers or the next publication see. */
  ghost predicate AllOrNothing(l: Layout) {
    forall l', files, f :: After(l, l', NextGeneration(l), files, f) && !Accepted(f) && !Stranded(f) ==> Unchanged(l, l')
  }

  /** That the new number is not the one in service is exactly what all-or-nothing depends on. It can be
      violated: a lost counter restarts the numbering at 1, which may be the release being served. */
  lemma FreshNumberExact(l: Layout)
    requires !Dangling(l)
    ensures AllOrNothing(l) <==> l.current != Some(NextGeneration(l))
  {
    if l.current != Some(NextGeneration(l)) {
      forall l', files, f | After(l, l', NextGeneration(l), files, f) && !Accepted(f) && !Stranded(f) ensures Unchanged(l, l') {
        FailureChangesNothing(l, l', files, f);
      }
    } else {
      ReusedNumberLosesRelease(l);
    }
  }

  /** The failing case: the first file of a release that reuses the number in service cannot be written. */
  lemma ReusedNumberLosesRelease(l: Layout)
    requires l.current == Some(NextGeneration(l)) && !Dangling(l)
    ensures !AllOrNothing(l)
  {
    var gen := NextGeneration(l);
    var f := NOTHING_FAILS.(domains := Failed(None));
    var l' := l.(releases := l.releases - {gen});
    assert l'.releases - {gen} == l.releases - {gen};
    assert After(l, l', gen, map[], f) && !Accepted(f) && !Stranded(f);
    assert gen in l.releases && gen !in l'.releases;
  }

  /** Exactly three late failures leave the link dangling: the sync after the rename, an unsuccessful
      restore after a rejection, and the write of the number. */
  lemma DanglingExactly(l: Layout, l': Layout, files: Release, f: Faults)
    requires Serving(l) && l.current != Some(NextGeneration(l))
    requires After(l, l', NextGeneration(l), files, f)
    ensures Dangling(l') <==>
      && !f.mkReleases && !f.mkDir && f.domains.Done? && !f.mkMaps && f.http.Done? && f.sni.Done? && f.manifest.Done?
      && !f.syncDir && !f.link && (f.linkSync || (f.rejected && f.restore) || (!f.rejected && f.counter)) && !f.cleanup
  {
    var gen := NextGeneration(l);
    if !Accepted(f) && Started(f) && !Stranded(f) {
      UntouchedCurrent(l, gen, l'.releases);
    }
    if Accepted(f) {
      assert Kept(l.releases[gen := files].Keys, gen, f, gen);
    }
  }

  lemma AcceptedIsCurrent(l: Layout, l': Layout, files: Release, f: Faults)
    requires After(l, l', NextGeneration(l), files, f) && Accepted(f)
    ensures l'.current == Some(NextGeneration(l)) && NextGeneration(l) in l'.releases
    ensures l'.releases[NextGeneration(l)] == files
  {
  }

  /** What readers of a release are told about a host that comes in over HTTP, and over TLS. */
  function OverHttp(r: Release, host: string): Option<Backend>
    requires HttpMap in r && DomainsCfg in r
  {
    Route(r[HttpMap], r[DomainsCfg], host)
  }

  function OverTls(r: Release, host: string): Option<Backend>
    requires SniMap in r && DomainsCfg in r
  {
    Route(r[SniMap], r[DomainsCfg], host)
  }

  lemma FilesAnswer(gen: nat, ds: seq<Domain>, c: Context, host: string)
    requires Table(ds) && Header(c.mapHeader) && Header(c.cfgHeader)
    ensures var r := FilesOf(gen, ds, c);
      && r.Keys == {DomainsCfg, HttpMap, SniMap, Manifest}
      && (forall d :: d in ds && d.name == host ==>
        && OverHttp(r, host) == Some(Backend("http", d.ip + ":80", false, true))
        && OverTls(r, host) == Some(Backend("tcp", d.ip + ":443", d.proxyProtocol, false)))
      && ((forall d :: d in ds ==> d.name != host) ==> OverHttp(r, host) == None && OverTls(r, host) == None)
  {
    RoutingPreserved(c.mapHeader, c.cfgHeader, ds, host);
    TextsAnswer(Texts(DomainsText(c.cfgHeader, ds), MapText(c.mapHeader, ds, NameFor(Http)),
      MapText(c.mapHeader, ds, NameFor(Tls)), ManifestText(gen, ds, c)), host);
  }

  lemma TextsAnswer(t: Texts, host: string)
    ensures var r := FilesFrom(t);
      && r.Keys == {DomainsCfg, HttpMap, SniMap, Manifest}
      && OverHttp(r, host) == Route(t.http, t.domains, host) && OverTls(r, host) == Route(t.sni, t.domains, host)
  {
    assert FilesFrom(t).Keys == {DomainsCfg, HttpMap, SniMap, Manifest};
  }

  lemma AcceptedServes(l: Layout, l': Layout, files: Release, f: Faults)
    requires After(l, l', NextGeneration(l), files, f) && Accepted(f) && Complete(files)
    ensures Serving(l') && l'.current.Some? && l'.releases[l'.current.value] == files
  {
    AcceptedIsCurrent(l, l', files, f);
  }

  /** An accepted publication serves exactly the given domains: over HTTP a published host reaches its container on
      port 80, over TLS on port 443 with the PROXY header exactly if the domain asks for it, and any other host
      reaches nothing. */
  lemma AcceptedRoutes(l: Layout, l': Layout, ds: seq<Domain>, c: Context, f: Faults, host: string)
    requires Table(ds) && Header(c.mapHeader) && Header(c.cfgHeader)
    requires After(l, l', NextGeneration(l), FilesOf(NextGeneration(l), ds, c), f) && Accepted(f)
    ensures Serving(l') && l'.current.Some? && l'.releases[l'.current.value].Keys == {DomainsCfg, HttpMap, SniMap, Manifest}
    ensures var r := l'.releases[l'.current.value];
      && (forall d :: d in ds && d.name == host ==>
        && OverHttp(r, host) == Some(Backend("http", d.ip + ":80", false, true))
        && OverTls(r, host) == Some(Backend("tcp", d.ip + ":443", d.proxyProtocol, false)))
      && ((forall d :: d in ds ==> d.name != host) ==> OverHttp(r, host) == None && OverTls(r, host) == None)
  {
    var gen := NextGeneration(l);
    FilesAnswer(gen, ds, c, host);
    AcceptedServes(l, l', FilesOf(gen, ds, c), f);
  }

  // ---- how many releases are kept

  ghost function Top(gens: set<nat>, k: nat): set<nat> { set g | g in gens && Newer(gens, g) < k }

  lemma AboveStep(gens: set<nat>, m: nat, g: nat)
    requires m in gens && g in gens - {m} && g <= m
    ensures Newer(gens, g) == Newer(gens - {m}, g) + 1
  {
    assert Above(gens, g) == Above(gens - {m}, g) + {m};
  }

  lemma TopStep(gens: set<nat>, m: nat, k: nat)
    requires m in gens && k > 0 && forall h :: h in gens ==> h <= m
    ensures |Top(gens, k)| == |Top(gens - {m}, k - 1)| + 1
  {
    var rest := gens - {m};
    assert Above(gens, m) == {};
    forall g | g in rest ensures Newer(gens, g) == Newer(rest, g) + 1 { AboveStep(gens, m, g); }
    var top := Top(rest, k - 1);
    assert Top(gens, k) == top + {m} && m !in top;
  }

  lemma Maximum(gens: set<nat>) returns (m: nat)
    requires gens != {}
    ensures m in gens && forall h :: h in gens ==> h <= m
    ensures |gens| == |gens - {m}| + 1
  {
    m := Largest(gens);
  }

  /** A set has exactly k elements with fewer than k elements above them, if it is that large. */
  lemma {:induction false} TopSize(gens: set<nat>, k: nat)
    ensures |Top(gens, k)| == Min(k, |gens|)
    decreases k
  {
    if gens == {} || k == 0 {
      assert Top(gens, k) == {};
    } else {
      var m := Maximum(gens);
      TopStep(gens, m, k);
      TopSize(gens - {m}, k - 1);
    }
  }

  /** With the recorded number at or above every release, a faultless prune leaves the newest three
      (or all, if there are fewer), and the release in service is one of them. */
  lemma PruneKeepsNewest(before: map<nat, Release>, after: map<nat, Release>, current: nat, f: Faults)
    requires Pruned(before, after, current, f) && !f.readDir && f.keepAlive == {}
    requires current in before && forall g :: g in before ==> g <= current
    ensures after.Keys == Top(before.Keys, 3) && current in after
    ensures |after| == Min(3, |before|)
  {
    assert Above(before.Keys, current) == {};
    forall g ensures g in after.Keys <==> g in Top(before.Keys, KEEP) {
      assert g in after <==> Kept(before.Keys, current, f, g);
    }
    TopSize(before.Keys, KEEP);
  }

  // ---- whole histories

  ghost predicate Sound(l: Layout) {
    && Serving(l)
    && (l.current.Some? ==> l.counter.Some? && l.current.value <= l.counter.value)
  }

  /** No release has a number above the one to be given out next. */
  ghost predicate NumbersLow(l: Layout) { forall g :: g in l.releases ==> g <= NextGeneration(l) }

  ghost predicate Publication(l: Layout, l': Layout, ds: seq<Domain>, c: Context, f: Faults) {
    After(l, l', NextGeneration(l), FilesOf(NextGeneration(l), ds, c), f)
  }

  ghost predicate PublicationFrom(l: Layout, l': Layout) {
    exists ds, c, f :: !Stranded(f) && Publication(l, l', ds, c, f)
  }

  /** Writing the number failed, which may have left another one, or none. */
  predicate NumberLost(f: Faults) { Checked(f) && f.counter }

  lemma NumbersStayLow(l: Layout, l': Layout, files: Release, f: Faults)
    requires NumbersLow(l) && After(l, l', NextGeneration(l), files, f) && !NumberLost(f)
    ensures NumbersLow(l')
  {
    var gen := NextGeneration(l);
    forall g | g in l'.releases ensures g <= NextGeneration(l') {
      if Accepted(f) {
        assert Kept(l.releases[gen := files].Keys, gen, f, g);
      } else if Started(f) && g != gen {
        assert g in l'.releases - {gen} && g in l.releases;
      }
    }
  }

  lemma PublicationKeepsSound(l: Layout, l': Layout)
    requires Sound(l) && PublicationFrom(l, l')
    ensures Sound(l')
  {
    var gen := NextGeneration(l);
    var ds, c, f :| !Stranded(f) && Publication(l, l', ds, c, f);
    var files := FilesOf(gen, ds, c);
    if Accepted(f) {
      AcceptedIsCurrent(l, l', files, f);
    } else {
      FailureChangesNothing(l, l', files, f);
    }
  }

  /** A faultless publication leaves exactly the newest three releases, the new one among them. */
  lemma FaultlessKeepsThree(l: Layout, l': Layout, ds: seq<Domain>, c: Context, f: Faults)
    requires NumbersLow(l) && Publication(l, l', ds, c, f) && Accepted(f) && !f.readDir && f.keepAlive == {}
    ensures l'.current == Some(NextGeneration(l))
    ensures NextGeneration(l) in l'.releases && l'.releases.Keys == Top(l.releases.Keys + {NextGeneration(l)}, 3)
    ensures |l'.releases| == Min(3, |l.releases.Keys + {NextGeneration(l)}|)
  {
    var gen := NextGeneration(l);
    var before := l.releases[gen := FilesOf(gen, ds, c)];
    assert before.Keys == l.releases.Keys + {gen} && |before| == |before.Keys|;
    PruneKeepsNewest(before, l'.releases, gen, f);
  }

  /** From any tree, dangling or not, an accepted publication leaves a sound one. */
  lemma AcceptedRecovers(l: Layout, l': Layout, ds: seq<Domain>, c: Context, f: Faults)
    requires Publication(l, l', ds, c, f) && Accepted(f)
    ensures Sound(l')
  {
    AcceptedServes(l, l', FilesOf(NextGeneration(l), ds, c), f);
  }

  datatype Attempt = Attempt(ds: seq<Domain>, c: Context, f: Faults)

  /** Any number of publications, each failing anywhere, stranded ones included. */
  ghost predicate History(history: seq<Layout>, attempts: seq<Attempt>) {
    && |history| == |attempts| + 1
    && forall i :: 0 <= i < |attempts| ==> HistoryStep(history, attempts, i)
  }

  ghost predicate HistoryStep(history: seq<Layout>, attempts: seq<Attempt>, i: nat)
    requires i < |attempts| && |history| == |attempts| + 1
  {
    Publication(history[i], history[i + 1], attempts[i].ds, attempts[i].c, attempts[i].f)
  }

  /** The tree is in order at j: it was so at the start, or a publication was just accepted. */
  ghost predicate SoundAt(history: seq<Layout>, attempts: seq<Attempt>, j: nat)
    requires |history| == |attempts| + 1 && j <= |attempts|
  {
    (j == 0 && Sound(history[0])) || (j > 0 && Accepted(attempts[j - 1].f))
  }

  /** Over every history: from a sound start, and again from any accepted publication, the proxy has a complete
      release to read and the next number is not the one in service, until a publication is stranded. */
  lemma {:induction false} HistoryStaysSound(history: seq<Layout>, attempts: seq<Attempt>, j: nat, i: nat)
    requires History(history, attempts) && j <= i <= |attempts| && SoundAt(history, attempts, j)
    requires forall k :: j <= k < i ==> !Stranded(attempts[k].f)
    ensures Sound(history[i]) && history[i].current != Some(NextGeneration(history[i]))
  {
    if i == j {
      if j > 0 {
        assert HistoryStep(history, attempts, j - 1);
        AcceptedRecovers(history[j - 1], history[j], attempts[j - 1].ds, attempts[j - 1].c, attempts[j - 1].f);
      }
    } else {
      HistoryStaysSound(history, attempts, j, i - 1);
      assert HistoryStep(history, attempts, i - 1);
      PublicationKeepsSound(history[i - 1], history[i]);
    }
  }

  lemma PublicationNumbersLow(l: Layout, l': Layout, ds: seq<Domain>, c: Context, f: Faults)
    requires NumbersLow(l) && Publication(l, l', ds, c, f) && !NumberLost(f)
    ensures NumbersLow(l')
  {
    NumbersStayLow(l, l', FilesOf(NextGeneration(l), ds, c), f);
  }

  lemma StepNumbersLow(history: seq<Layout>, attempts: seq<Attempt>, i: nat)
    requires |history| == |attempts| + 1 && i < |attempts| && HistoryStep(history, attempts, i)
    requires NumbersLow(history[i]) && !NumberLost(attempts[i].f)
    ensures NumbersLow(history[i + 1])
  {
    PublicationNumbersLow(history[i], history[i + 1], attempts[i].ds, attempts[i].c, attempts[i].f);
  }

  lemma {:induction false} HistoryNumbersLow(history: seq<Layout>, attempts: seq<Attempt>, i: nat)
    requires History(history, attempts) && NumbersLow(history[0]) && i <= |attempts|
    requires forall k :: 0 <= k < i ==> !NumberLost(attempts[k].f)
    ensures NumbersLow(history[i])
  {
    if i > 0 {
      HistoryNumbersLow(history, attempts, i - 1);
      StepNumbersLow(history, attempts, i - 1);
    }
  }

  /** And as long as no write of the number failed, after each faultless publication of a history exactly the newest
      three releases remain, whatever earlier failures had left behind. */
  lemma HistoryKeepsThree(history: seq<Layout>, attempts: seq<Attempt>, i: nat)
    requires History(history, attempts) && NumbersLow(history[0]) && i < |attempts|
    requires forall k :: 0 <= k < i ==> !NumberLost(attempts[k].f)
    requires Accepted(attempts[i].f) && !attempts[i].f.readDir && attempts[i].f.keepAlive == {}
    ensures var gen := NextGeneration(history[i]); var all := history[i].releases.Keys + {gen};
      history[i + 1].releases.Keys == Top(all, 3) && gen in history[i + 1].releases && |history[i + 1].releases| == Min(3, |all|)
  {
    HistoryNumbersLow(history, attempts, i);
    assert HistoryStep(history, attempts, i);
    FaultlessKeepsThree(history[i], history[i + 1], attempts[i].ds, attempts[i].c, attempts[i].f);
  }
}
