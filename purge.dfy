/**
 * The deletion pass `handle_old_files`: each file's `dateAdded` is parsed,
 * compared strictly with one cutoff, and an old file is either reported
 * (test mode) or removed from the file store, a failed removal being
 * reported and skipped. `print` becomes report entries.
 */
module Purge {
  import opened Results
  import opened Timestamps
  import opened Catalogs

  datatype Service = Sonarr | Radarr

  /** Why `os.remove` raised: the path is absent, or the store refuses (permissions, a directory, I/O). */
  datatype RemoveError = NotFound | Refused

  /** An exception that ends a catalog's pass: a failed request, or a date neither format accepts. */
  datatype PassError = Request(request: RequestError) | BadDate(date: ParseError)

  /** One line of the report, in place of the source's `print` calls. */
  datatype Entry =
    | Checking(service: Service)
    | Skipped(title: string)
    | WouldDelete(service: Service, path: string, added: DateTime)
    | Deleted(service: Service, path: string, added: DateTime)
    | DeleteFailed(path: string, reason: RemoveError)
    | ServiceError(service: Service, error: PassError)

  /** The run's parameters: the cutoff, computed once from the clock, and test mode. */
  datatype RunConfig = RunConfig(cutoff: DateTime, testMode: bool)

  /** `os.remove(path)` against the store's paths: absent paths and undeletable paths fail. */
  function RemoveResult(paths: set<string>, undeletable: set<string>, path: string): Option<RemoveError> {
    if path !in paths then Some(NotFound)
    else if path in undeletable then Some(Refused)
    else None
  }

  /** The file system: the paths that exist, and those whose removal fails. */
  class FileStore {
    var paths: set<string>
    const undeletable: set<string>

    constructor (paths: set<string>, undeletable: set<string>)
      ensures this.paths == paths && this.undeletable == undeletable
    {
      this.paths := paths;
      this.undeletable := undeletable;
    }

    /** `os.remove`: all or nothing for one path. */
    method Remove(path: string) returns (err: Option<RemoveError>)
      modifies this
      ensures err == RemoveResult(old(paths), undeletable, path)
      ensures paths == if err.None? then old(paths) - {path} else old(paths)
    {
      err := RemoveResult(paths, undeletable, path);
      if err.None? {
        paths := paths - {path};
      }
    }
  }

  // ------------------------------------------------------ the deletion pass

  /** What the pass did to the store, what it reported, and the exception that ended it, if any. */
  datatype Pass = Pass(remaining: set<string>, log: seq<Entry>, failure: Option<PassError>)

  function Prefix(entries: seq<Entry>, p: Pass): Pass {
    Pass(p.remaining, entries + p.log, p.failure)
  }

  /** The treatment of one file older than the cutoff, as its report line. */
  function Act(paths: set<string>, undeletable: set<string>, f: MediaFile, added: DateTime,
               service: Service, config: RunConfig): Entry
  {
    if config.testMode then WouldDelete(service, f.path, added)
    else match RemoveResult(paths, undeletable, f.path)
      case None => Deleted(service, f.path, added)
      case Some(e) => DeleteFailed(f.path, e)
  }

  /** The store after the treatment reported by `e`. */
  function AfterAct(paths: set<string>, e: Entry): set<string> {
    if e.Deleted? then paths - {e.path} else paths
  }

  /** `handle_old_files`: the files in order; a date that does not parse ends the pass. */
  function HandleFiles(paths: set<string>, undeletable: set<string>, files: seq<MediaFile>,
                       service: Service, config: RunConfig): Pass
    decreases |files|
  {
    if files == [] then Pass(paths, [], None)
    else
      match ParseDate(files[0].dateAdded)
      case Err(e) => Pass(paths, [], Some(BadDate(e)))
      case Ok(added) =>
        if Before(added, config.cutoff) then
          var entry := Act(paths, undeletable, files[0], added, service, config);
          Prefix([entry], HandleFiles(AfterAct(paths, entry), undeletable, files[1..], service, config))
        else HandleFiles(paths, undeletable, files[1..], service, config)
  }

  lemma PrefixAssociates(a: seq<Entry>, b: seq<Entry>, p: Pass)
    ensures Prefix(a, Prefix(b, p)) == Prefix(a + b, p)
  {
    assert a + (b + p.log) == (a + b) + p.log;
  }

  /** `handle_old_files` as the source runs it, against the store. */
  method HandleOldFiles(store: FileStore, files: seq<MediaFile>, service: Service, config: RunConfig)
    returns (log: seq<Entry>, failure: Option<PassError>)
    modifies store
    ensures var p := HandleFiles(old(store.paths), store.undeletable, files, service, config);
      store.paths == p.remaining && log == p.log && failure == p.failure
  {
    log, failure := [], None;
    var i := 0;
    assert files[i..] == files;
    assert [] + HandleFiles(store.paths, store.undeletable, files, service, config).log
        == HandleFiles(store.paths, store.undeletable, files, service, config).log;
    while i < |files|
      invariant 0 <= i <= |files|
      invariant HandleFiles(old(store.paths), store.undeletable, files, service, config)
             == Prefix(log, HandleFiles(store.paths, store.undeletable, files[i..], service, config))
    {
      var file := files[i];
      assert files[i..][0] == file && files[i..][1..] == files[i + 1..];
      var parsed := ParseDate(file.dateAdded);
      if parsed.Err? {
        failure := Some(BadDate(parsed.error));
        assert log + [] == log;
        return;
      }
      var added := parsed.value;
      if Before(added, config.cutoff) {
        ghost var before := store.paths;
        var entry;
        if config.testMode {
          entry := WouldDelete(service, file.path, added);
        } else {
          var err := store.Remove(file.path);
          entry := if err.None? then Deleted(service, file.path, added) else DeleteFailed(file.path, err.value);
        }
        assert entry == Act(before, store.undeletable, file, added, service, config);
        assert store.paths == AfterAct(before, entry);
        PrefixAssociates(log, [entry], HandleFiles(store.paths, store.undeletable, files[i + 1..], service, config));
        log := log + [entry];
      }
      i := i + 1;
    }
    assert files[i..] == [];
    assert log + [] == log;
  }

  // ------------------------------------------- reference definitions

  /** A file the pass acts on: its date parses and is strictly before the cutoff. */
  predicate Eligible(f: MediaFile, cutoff: DateTime) {
    ParseDate(f.dateAdded).Ok? && Before(ParseDate(f.dateAdded).value, cutoff)
  }

  /** The files the pass reaches: the longest prefix whose dates all parse. */
  function Processed(files: seq<MediaFile>): (r: seq<MediaFile>)
    ensures |r| <= |files| && r == files[..|r|]
    ensures forall i :: 0 <= i < |r| ==> ParseDate(r[i].dateAdded).Ok?
    ensures |r| < |files| ==> ParseDate(files[|r|].dateAdded).Err?
  {
    if files == [] || ParseDate(files[0].dateAdded).Err? then []
    else
      var rest := Processed(files[1..]);
      assert rest == files[1..|rest| + 1];
      assert [files[0]] + files[1..|rest| + 1] == files[..|rest| + 1];
      [files[0]] + rest
  }

  /** The eligible files the pass reaches, in order: those before the first date that does not parse. */
  function Reached(files: seq<MediaFile>, cutoff: DateTime): (r: seq<MediaFile>)
    ensures forall i :: 0 <= i < |r| ==> Eligible(r[i], cutoff)
    ensures forall f :: f in r ==> f in files
  {
    if files == [] || ParseDate(files[0].dateAdded).Err? then []
    else (if Before(ParseDate(files[0].dateAdded).value, cutoff) then [files[0]] else [])
         + Reached(files[1..], cutoff)
  }

  /**
   * The files the pass acts on are exactly the eligible ones among those it
   * reaches: none is missed before the first date that does not parse.
   */
  lemma {:induction false} ReachedIsEligibleProcessed(files: seq<MediaFile>, cutoff: DateTime)
    ensures forall f :: f in Reached(files, cutoff) <==> f in Processed(files) && Eligible(f, cutoff)
    decreases |files|
  {
    if files != [] && ParseDate(files[0].dateAdded).Ok? {
      ReachedIsEligibleProcessed(files[1..], cutoff);
      assert Processed(files) == [files[0]] + Processed(files[1..]);
    }
  }

  /** The eligible files among `fs`, in order. */
  function EligibleOf(fs: seq<MediaFile>, cutoff: DateTime): seq<MediaFile> {
    if fs == [] then []
    else (if Eligible(fs[0], cutoff) then [fs[0]] else []) + EligibleOf(fs[1..], cutoff)
  }

  /** Acting on a file as it is reached, in order, is filtering the reached prefix by eligibility. */
  lemma {:induction false} ReachedFiltersProcessed(files: seq<MediaFile>, cutoff: DateTime)
    ensures Reached(files, cutoff) == EligibleOf(Processed(files), cutoff)
    decreases |files|
  {
    if files != [] && ParseDate(files[0].dateAdded).Ok? {
      var p := Processed(files[1..]);
      ReachedFiltersProcessed(files[1..], cutoff);
      assert Processed(files) == [files[0]] + p;
      assert ([files[0]] + p)[0] == files[0] && ([files[0]] + p)[1..] == p;
    }
  }

  function PathSet(fs: seq<MediaFile>): set<string> {
    if fs == [] then {} else {fs[0].path} + PathSet(fs[1..])
  }

  /** The report lines of `fs`, each judged against the same store `paths`. */
  function Outcomes(paths: set<string>, undeletable: set<string>, fs: seq<MediaFile>,
                    service: Service, config: RunConfig): seq<Entry>
    requires forall i :: 0 <= i < |fs| ==> ParseDate(fs[i].dateAdded).Ok?
  {
    if fs == [] then []
    else [Act(paths, undeletable, fs[0], ParseDate(fs[0].dateAdded).value, service, config)]
         + Outcomes(paths, undeletable, fs[1..], service, config)
  }

  predicate DistinctPaths(files: seq<MediaFile>) {
    forall i, j :: 0 <= i < j < |files| ==> files[i].path != files[j].path
  }

  lemma ConsFacts(f: MediaFile, rest: seq<MediaFile>)
    ensures PathSet([f] + rest) == {f.path} + PathSet(rest)
    ensures ([f] + rest)[0] == f && ([f] + rest)[1..] == rest
  {
    assert ([f] + rest)[0] == f && ([f] + rest)[1..] == rest;
  }

  /** An eligible file, in real mode, removes its path iff it exists and is deletable. */
  lemma ActRemoves(paths: set<string>, undeletable: set<string>, f: MediaFile, added: DateTime,
                   service: Service, config: RunConfig, t: set<string>)
    requires !config.testMode
    ensures var after := AfterAct(paths, Act(paths, undeletable, f, added, service, config));
      after - (t - undeletable) == paths - (({f.path} + t) - undeletable)
  {
  }

  /** One file too recent to act on: the pass and the reached files both move past it. */
  lemma SkipStep(paths: set<string>, undeletable: set<string>, files: seq<MediaFile>,
                 service: Service, config: RunConfig)
    requires files != [] && ParseDate(files[0].dateAdded).Ok?
    requires !Before(ParseDate(files[0].dateAdded).value, config.cutoff)
    ensures HandleFiles(paths, undeletable, files, service, config)
         == HandleFiles(paths, undeletable, files[1..], service, config)
    ensures Reached(files, config.cutoff) == Reached(files[1..], config.cutoff)
  {
    assert [] + Reached(files[1..], config.cutoff) == Reached(files[1..], config.cutoff);
  }

  /**
   * Test mode never changes the store. Otherwise the store loses exactly the
   * paths of the eligible files the pass reached, except the undeletable ones:
   * each such removal is attempted, and a failed one does not stop the pass.
   */
  lemma {:induction false} HandleRemoves(paths: set<string>, undeletable: set<string>, files: seq<MediaFile>,
                                         service: Service, config: RunConfig)
    ensures var rem := HandleFiles(paths, undeletable, files, service, config).remaining;
      if config.testMode then rem == paths
      else rem == paths - (PathSet(Reached(files, config.cutoff)) - undeletable)
    decreases |files|, 1
  {
    if files != [] && ParseDate(files[0].dateAdded).Ok? {
      if Before(ParseDate(files[0].dateAdded).value, config.cutoff) {
        RemovesEligible(paths, undeletable, files, service, config);
      } else {
        SkipStep(paths, undeletable, files, service, config);
        HandleRemoves(paths, undeletable, files[1..], service, config);
      }
    }
  }

  lemma {:induction false} RemovesEligible(paths: set<string>, undeletable: set<string>, files: seq<MediaFile>,
                                           service: Service, config: RunConfig)
    requires files != [] && Eligible(files[0], config.cutoff)
    ensures var rem := HandleFiles(paths, undeletable, files, service, config).remaining;
      if config.testMode then rem == paths
      else rem == paths - (PathSet(Reached(files, config.cutoff)) - undeletable)
    decreases |files|, 0
  {
    var f := files[0];
    var entry := Act(paths, undeletable, f, ParseDate(f.dateAdded).value, service, config);
    var t := PathSet(Reached(files[1..], config.cutoff));
    assert Reached(files, config.cutoff) == [f] + Reached(files[1..], config.cutoff);
    ConsFacts(f, Reached(files[1..], config.cutoff));
    HandleRemoves(AfterAct(paths, entry), undeletable, files[1..], service, config);
    if !config.testMode {
      ActRemoves(paths, undeletable, f, ParseDate(f.dateAdded).value, service, config, t);
    }
  }

  lemma {:induction false} OutcomesFrame(p1: set<string>, p2: set<string>, undeletable: set<string>,
                                         fs: seq<MediaFile>, service: Service, config: RunConfig)
    requires forall i :: 0 <= i < |fs| ==> ParseDate(fs[i].dateAdded).Ok?
    requires forall f :: f in fs ==> (f.path in p1 <==> f.path in p2)
    ensures Outcomes(p1, undeletable, fs, service, config) == Outcomes(p2, undeletable, fs, service, config)
  {
    if fs != [] {
      assert fs[0] in fs;
      assert forall f :: f in fs[1..] ==> f in fs;
      OutcomesFrame(p1, p2, undeletable, fs[1..], service, config);
    }
  }

  /**
   * The report lists, in order, one line for each eligible file the pass
   * reached and nothing else. With distinct paths, each line depends only on
   * the store as it was before the pass: a real removal reports `Deleted`
   * exactly when the path existed and was deletable.
   */
  lemma {:induction false} HandleReports(paths: set<string>, undeletable: set<string>, files: seq<MediaFile>,
                                         service: Service, config: RunConfig)
    requires config.testMode || DistinctPaths(files)
    ensures HandleFiles(paths, undeletable, files, service, config).log
         == Outcomes(paths, undeletable, Reached(files, config.cutoff), service, config)
    decreases |files|, 1
  {
    if files != [] && ParseDate(files[0].dateAdded).Ok? {
      if !config.testMode {
        assert DistinctPaths(files[1..]) by {
          assert forall i :: 0 <= i < |files[1..]| ==> files[1..][i] == files[i + 1];
        }
      }
      if Before(ParseDate(files[0].dateAdded).value, config.cutoff) {
        ReportsEligible(paths, undeletable, files, service, config);
      } else {
        SkipStep(paths, undeletable, files, service, config);
        HandleReports(paths, undeletable, files[1..], service, config);
      }
    }
  }

  lemma {:induction false} ReportsEligible(paths: set<string>, undeletable: set<string>, files: seq<MediaFile>,
                                           service: Service, config: RunConfig)
    requires files != [] && Eligible(files[0], config.cutoff)
    requires config.testMode || (DistinctPaths(files) && DistinctPaths(files[1..]))
    ensures HandleFiles(paths, undeletable, files, service, config).log
         == Outcomes(paths, undeletable, Reached(files, config.cutoff), service, config)
    decreases |files|, 0
  {
    var f, rest := files[0], files[1..];
    var entry := Act(paths, undeletable, f, ParseDate(f.dateAdded).value, service, config);
    var reached := Reached(rest, config.cutoff);
    assert Reached(files, config.cutoff) == [f] + reached;
    ConsFacts(f, reached);
    HandleReports(AfterAct(paths, entry), undeletable, rest, service, config);
    forall g | g in reached
      ensures g.path in AfterAct(paths, entry) <==> g.path in paths
    {
      if !config.testMode {
        assert g in rest;
        var j :| 0 <= j < |rest| && rest[j] == g;
        assert files[j + 1] == g;
      }
    }
    OutcomesFrame(AfterAct(paths, entry), paths, undeletable, reached, service, config);
  }

  /**
   * A date that does not parse raises out of the pass: it ends with exactly
   * that error, and the pass ends cleanly iff every date parses.
   */
  lemma {:induction false} HandleFailure(paths: set<string>, undeletable: set<string>, files: seq<MediaFile>,
                                         service: Service, config: RunConfig)
    ensures var p, n := HandleFiles(paths, undeletable, files, service, config), |Processed(files)|;
      && (p.failure.None? <==> n == |files|)
      && (p.failure.Some? ==> n < |files| && p.failure == Some(BadDate(ParseDate(files[n].dateAdded).error)))
    decreases |files|
  {
    if files != [] && ParseDate(files[0].dateAdded).Ok? {
      var next := FailureStep(paths, undeletable, files, service, config);
      HandleFailure(next, undeletable, files[1..], service, config);
      var n := |Processed(files[1..])|;
      if n < |files| - 1 {
        assert files[1..][n] == files[n + 1];
      }
    }
  }

  /** One file whose date parses: the pass goes on, on the store `next`, and the reached prefix grows by it. */
  lemma FailureStep(paths: set<string>, undeletable: set<string>, files: seq<MediaFile>,
                    service: Service, config: RunConfig) returns (next: set<string>)
    requires files != [] && ParseDate(files[0].dateAdded).Ok?
    ensures HandleFiles(paths, undeletable, files, service, config).failure
         == HandleFiles(next, undeletable, files[1..], service, config).failure
    ensures Processed(files) == [files[0]] + Processed(files[1..])
  {
    var added := ParseDate(files[0].dateAdded).value;
    next := if Before(added, config.cutoff)
      then AfterAct(paths, Act(paths, undeletable, files[0], added, service, config))
      else paths;
  }

  /** The files after one whose date does not parse make no difference at all. */
  lemma {:induction false} BadDateEndsPass(paths: set<string>, undeletable: set<string>, files: seq<MediaFile>,
                                           k: nat, service: Service, config: RunConfig)
    requires k < |files| && ParseDate(files[k].dateAdded).Err?
    ensures HandleFiles(paths, undeletable, files, service, config)
         == HandleFiles(paths, undeletable, files[..k + 1], service, config)
  {
    var cut := files[..k + 1];
    assert cut[0] == files[0];
    if k > 0 {
      assert cut[1..] == files[1..][..k];
      var parsed := ParseDate(files[0].dateAdded);
      if parsed.Ok? {
        if Before(parsed.value, config.cutoff) {
          var entry := Act(paths, undeletable, files[0], parsed.value, service, config);
          BadDateEndsPass(AfterAct(paths, entry), undeletable, files[1..], k - 1, service, config);
        } else {
          BadDateEndsPass(paths, undeletable, files[1..], k - 1, service, config);
        }
      }
    }
  }

  /** A file dated exactly at the cutoff is not eligible. */
  lemma CutoffIsExclusive(f: MediaFile, cutoff: DateTime)
    requires ParseDate(f.dateAdded) == Ok(cutoff)
    ensures !Eligible(f, cutoff)
  {
    BeforeIsStrictTotalOrder(cutoff, cutoff, cutoff);
  }

  /** A report line of the pass itself: a would-delete in test mode, else a deletion or a failed one. */
  predicate ActLine(e: Entry, service: Service, config: RunConfig) {
    if config.testMode then e.WouldDelete? && e.service == service
    else (e.Deleted? && e.service == service) || e.DeleteFailed?
  }

  predicate ActLines(log: seq<Entry>, service: Service, config: RunConfig) {
    forall i :: 0 <= i < |log| ==> ActLine(log[i], service, config)
  }

  lemma ActLinesCons(e: Entry, rest: seq<Entry>, service: Service, config: RunConfig)
    requires ActLine(e, service, config) && ActLines(rest, service, config)
    ensures ActLines([e] + rest, service, config)
  {
    assert forall i :: 1 <= i < |[e] + rest| ==> ([e] + rest)[i] == rest[i - 1];
  }

  /** Every line the pass reports is one of its own, tagged with the service it serves. */
  lemma {:induction false} HandleLines(paths: set<string>, undeletable: set<string>, files: seq<MediaFile>,
                                       service: Service, config: RunConfig)
    ensures ActLines(HandleFiles(paths, undeletable, files, service, config).log, service, config)
  {
    if files != [] && ParseDate(files[0].dateAdded).Ok? {
      var added := ParseDate(files[0].dateAdded).value;
      if Before(added, config.cutoff) {
        var entry := Act(paths, undeletable, files[0], added, service, config);
        var rest := HandleFiles(AfterAct(paths, entry), undeletable, files[1..], service, config).log;
        HandleLines(AfterAct(paths, entry), undeletable, files[1..], service, config);
        ActLinesCons(entry, rest, service, config);
      } else {
        HandleLines(paths, undeletable, files[1..], service, config);
      }
    }
  }

  /** In test mode the report and the outcome do not depend on the store at all. */
  lemma {:induction false} DryPassIgnoresStore(p1: set<string>, p2: set<string>, undeletable: set<string>,
                                               files: seq<MediaFile>, service: Service, config: RunConfig)
    requires config.testMode
    ensures var a, b := HandleFiles(p1, undeletable, files, service, config),
                        HandleFiles(p2, undeletable, files, service, config);
      a.log == b.log && a.failure == b.failure && a.remaining == p1 && b.remaining == p2
  {
    if files != [] && ParseDate(files[0].dateAdded).Ok? {
      DryPassIgnoresStore(p1, p2, undeletable, files[1..], service, config);
    }
  }

  /** Some date among `files` does not parse. */
  predicate BadDateIn(files: seq<MediaFile>) {
    exists i :: 0 <= i < |files| && ParseDate(files[i].dateAdded).Err?
  }

  /** The pass raises exactly when some date does not parse, and then with a date error. */
  lemma {:induction false} FailureIffBadDate(paths: set<string>, undeletable: set<string>, files: seq<MediaFile>,
                                             service: Service, config: RunConfig)
    ensures var failure := HandleFiles(paths, undeletable, files, service, config).failure;
      (failure.Some? <==> BadDateIn(files)) && (failure.Some? ==> failure.value.BadDate?)
    decreases |files|
  {
    if files != [] && ParseDate(files[0].dateAdded).Ok? {
      var next := FailureStep(paths, undeletable, files, service, config);
      FailureIffBadDate(next, undeletable, files[1..], service, config);
      if BadDateIn(files) {
        var i :| 0 <= i < |files| && ParseDate(files[i].dateAdded).Err?;
        assert files[1..][i - 1] == files[i];
      }
      if BadDateIn(files[1..]) {
        var i :| 0 <= i < |files[1..]| && ParseDate(files[1..][i].dateAdded).Err?;
        assert files[i + 1] == files[1..][i];
      }
    } else if files != [] {
      assert ParseDate(files[0].dateAdded).Err?;
    }
  }
}
