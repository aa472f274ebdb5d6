/**
 * `main`: the Sonarr pass and then the Radarr pass over one file store, each
 * behind its own `except`. A pass announces itself, reports the protected
 * titles while its catalogue is read, then reports what the deletion pass did,
 * and ends with one error line when a request failed or a date did not parse.
 * The second pass runs whatever happened in the first.
 */
module Driver {
  import opened Results
  import opened Timestamps
  import opened Tags
  import opened Catalogs
  import opened Purge

  /** What a run, or one service's pass, leaves behind: the store's paths and the report. */
  datatype Report = Report(remaining: set<string>, log: seq<Entry>)

  /** The "Skipping" lines printed while a catalogue is read. */
  function SkipEntries(titles: seq<string>): (r: seq<Entry>)
    ensures |r| == |titles|
    ensures forall i :: 0 <= i < |r| ==> r[i] == Skipped(titles[i])
  {
    seq(|titles|, i requires 0 <= i < |titles| => Skipped(titles[i]))
  }

  /** The error line of an exception that ended a pass, if one did. */
  function ErrorLine(service: Service, failure: Option<PassError>): seq<Entry> {
    match failure
    case None => []
    case Some(e) => [ServiceError(service, e)]
  }

  /** One `try` block of `main`: announce, collect the files, run the deletion pass over them. */
  function ServicePass(paths: set<string>, undeletable: set<string>, c: Catalog,
                       service: Service, config: RunConfig): Report
  {
    var col := Collect(c);
    var head := [Checking(service)] + SkipEntries(col.skipped);
    match col.files
    case Err(e) => Report(paths, head + [ServiceError(service, Request(e))])
    case Ok(files) =>
      var p := HandleFiles(paths, undeletable, files, service, config);
      Report(p.remaining, head + p.log + ErrorLine(service, p.failure))
  }

  /** `main`: Sonarr first, then Radarr on the store the Sonarr pass left. */
  function Run(paths: set<string>, undeletable: set<string>, sonarr: Catalog, radarr: Catalog,
               config: RunConfig): Report
  {
    var s := ServicePass(paths, undeletable, sonarr, Sonarr, config);
    var r := ServicePass(s.remaining, undeletable, radarr, Radarr, config);
    Report(r.remaining, s.log + r.log)
  }

  /** One `try` block of `main`, against the store. */
  method RunService(store: FileStore, c: Catalog, service: Service, config: RunConfig)
    returns (log: seq<Entry>)
    modifies store
    ensures Report(store.paths, log) == ServicePass(old(store.paths), store.undeletable, c, service, config)
  {
    log := [Checking(service)];
    var files, skipped, requested := CollectFiles(c);
    log := log + SkipEntries(skipped);
    match files {
      case Err(e) =>
        log := log + [ServiceError(service, Request(e))];
      case Ok(fs) =>
        var handled, failure := HandleOldFiles(store, fs, service, config);
        log := log + handled + ErrorLine(service, failure);
    }
  }

  /** `main` against the store. */
  method PurgeOldFiles(store: FileStore, sonarr: Catalog, radarr: Catalog, config: RunConfig)
    returns (log: seq<Entry>)
    modifies store
    ensures Report(store.paths, log) == Run(old(store.paths), store.undeletable, sonarr, radarr, config)
  {
    var first := RunService(store, sonarr, Sonarr, config);
    var second := RunService(store, radarr, Radarr, config);
    log := first + second;
  }

  // ------------------------------------------- reference definitions

  /** The paths a pass over `c` targets: those of the eligible files it reaches. */
  function Targets(c: Catalog, cutoff: DateTime): set<string> {
    if Collect(c).files.Ok? then PathSet(Reached(Collect(c).files.value, cutoff)) else {}
  }

  /** Whether a pass over `c` ends in an exception: a failed request, or a date that does not parse. */
  predicate Fails(c: Catalog) {
    || Collect(c).files.Err?
    || BadDateIn(Collect(c).files.value)
  }


  /** The service a report line names, if it names one. */
  function ServiceOf(e: Entry): Option<Service> {
    match e
    case Checking(s) => Some(s)
    case WouldDelete(s, _, _) => Some(s)
    case Deleted(s, _, _) => Some(s)
    case ServiceError(s, _) => Some(s)
    case Skipped(_) => None
    case DeleteFailed(_, _) => None
  }

  /**
   * A pass's report: it opens with its announcement and has no other, every
   * line that names a service names this one, and only its last line can be
   * an error line.
   */
  predicate PassShape(log: seq<Entry>, service: Service) {
    && |log| > 0 && log[0] == Checking(service)
    && (forall i :: 0 < i < |log| ==> !log[i].Checking?)
    && (forall i :: 0 <= i < |log| ==> ServiceOf(log[i]) == None || ServiceOf(log[i]) == Some(service))
    && (forall i :: 0 <= i < |log| - 1 ==> !log[i].ServiceError?)
  }

  lemma ShapeOf(service: Service, titles: seq<string>, body: seq<Entry>, tail: seq<Entry>, config: RunConfig)
    requires ActLines(body, service, config)
    requires tail == [] || (|tail| == 1 && tail[0].ServiceError? && tail[0].service == service)
    ensures var log := [Checking(service)] + SkipEntries(titles) + body + tail;
      PassShape(log, service) && (log[|log| - 1].ServiceError? <==> tail != [])
  {
    var skips := SkipEntries(titles);
    var log := [Checking(service)] + skips + body + tail;
    var n := 1 + |skips|;
    assert forall i :: 0 < i < n ==> log[i] == skips[i - 1];
    assert forall i :: n <= i < n + |body| ==> log[i] == body[i - n];
    assert forall i :: n + |body| <= i < |log| ==> log[i] == tail[i - n - |body|];
  }

  /**
   * Every pass's report has that shape, and it ends with an error line
   * exactly when a request failed or some date in the collected files does
   * not parse.
   */
  lemma ServicePassShape(paths: set<string>, undeletable: set<string>, c: Catalog,
                         service: Service, config: RunConfig)
    ensures var log := ServicePass(paths, undeletable, c, service, config).log;
      PassShape(log, service) && (log[|log| - 1].ServiceError? <==> Fails(c))
  {
    var col := Collect(c);
    match col.files
    case Err(e) =>
      ShapeOf(service, col.skipped, [], [ServiceError(service, Request(e))], config);
      assert [Checking(service)] + SkipEntries(col.skipped) + [] == [Checking(service)] + SkipEntries(col.skipped);
    case Ok(files) =>
      FilesShape(paths, undeletable, col.skipped, files, service, config);
  }

  lemma FilesShape(paths: set<string>, undeletable: set<string>, titles: seq<string>, files: seq<MediaFile>,
                   service: Service, config: RunConfig)
    ensures var p := HandleFiles(paths, undeletable, files, service, config);
      var log := [Checking(service)] + SkipEntries(titles) + p.log + ErrorLine(service, p.failure);
      PassShape(log, service) && (log[|log| - 1].ServiceError? <==> BadDateIn(files))
  {
    var p := HandleFiles(paths, undeletable, files, service, config);
    HandleLines(paths, undeletable, files, service, config);
    FailureIffBadDate(paths, undeletable, files, service, config);
    ShapeOf(service, titles, p.log, ErrorLine(service, p.failure), config);
  }

  /**
   * With a catalogue read in full, a pass reports its announcement, the
   * protected titles in listing order, one line for each eligible file it
   * reaches, and the error of the first date that does not parse, if any.
   */
  lemma ServicePassReport(paths: set<string>, undeletable: set<string>, c: Catalog,
                          service: Service, config: RunConfig)
    requires Collect(c).files.Ok?
    requires config.testMode || DistinctPaths(Collect(c).files.value)
    ensures c.items.Ok? && c.tags.Ok?
    ensures var files, n := Collect(c).files.value, |Processed(Collect(c).files.value)|;
      ServicePass(paths, undeletable, c, service, config).log
        == [Checking(service)] + SkipEntries(ProtectedTitles(c.items.value, TagMap(c.tags.value)))
           + Outcomes(paths, undeletable, Reached(files, config.cutoff), service, config)
           + (if n == |files| then [] else [ServiceError(service, BadDate(ParseDate(files[n].dateAdded).error))])
  {
    CollectOutcome(c);
    var tags := TagMap(c.tags.value);
    ScanCollectsUnprotected(c.items.value, tags, c.fileLists);
    var files := Collect(c).files.value;
    HandleReports(paths, undeletable, files, service, config);
    HandleFailure(paths, undeletable, files, service, config);
  }

  /**
   * A dry run leaves the store alone. A real run removes exactly the
   * deletable paths either pass targets, whether or not the other pass
   * failed.
   */
  lemma RunStore(paths: set<string>, undeletable: set<string>, sonarr: Catalog, radarr: Catalog,
                 config: RunConfig)
    ensures var rem := Run(paths, undeletable, sonarr, radarr, config).remaining;
      if config.testMode then rem == paths
      else rem == paths - ((Targets(sonarr, config.cutoff) + Targets(radarr, config.cutoff)) - undeletable)
  {
    var s := ServicePass(paths, undeletable, sonarr, Sonarr, config);
    ServicePassStore(paths, undeletable, sonarr, Sonarr, config);
    ServicePassStore(s.remaining, undeletable, radarr, Radarr, config);
  }

  /** The store after one pass. */
  lemma ServicePassStore(paths: set<string>, undeletable: set<string>, c: Catalog,
                         service: Service, config: RunConfig)
    ensures var rem := ServicePass(paths, undeletable, c, service, config).remaining;
      if config.testMode then rem == paths else rem == paths - (Targets(c, config.cutoff) - undeletable)
  {
    if Collect(c).files.Ok? {
      HandleRemoves(paths, undeletable, Collect(c).files.value, service, config);
    }
  }

  /**
   * `log[..k]` is the Sonarr pass and `log[k..]` the Radarr pass: each opens
   * with its announcement and no line of one names the other's service.
   */
  predicate SplitAt(log: seq<Entry>, k: int) {
    && 0 < k < |log| && log[0] == Checking(Sonarr) && log[k] == Checking(Radarr)
    && (forall i :: 0 <= i < k ==> ServiceOf(log[i]) != Some(Radarr))
    && (forall i :: k <= i < |log| ==> ServiceOf(log[i]) != Some(Sonarr))
  }

  lemma SplitOf(a: seq<Entry>, b: seq<Entry>)
    requires PassShape(a, Sonarr) && PassShape(b, Radarr)
    ensures SplitAt(a + b, |a|)
  {
    var log, k := a + b, |a|;
    assert forall i :: 0 <= i < k ==> log[i] == a[i];
    assert forall i :: k <= i < |log| ==> log[i] == b[i - k];
  }

  /** The Radarr pass always runs, after the Sonarr pass and whatever it raised. */
  lemma RunOrder(paths: set<string>, undeletable: set<string>, sonarr: Catalog, radarr: Catalog,
                 config: RunConfig)
    ensures exists k :: SplitAt(Run(paths, undeletable, sonarr, radarr, config).log, k)
  {
    var s := ServicePass(paths, undeletable, sonarr, Sonarr, config);
    var r := ServicePass(s.remaining, undeletable, radarr, Radarr, config);
    ServicePassShape(paths, undeletable, sonarr, Sonarr, config);
    ServicePassShape(s.remaining, undeletable, radarr, Radarr, config);
    SplitOf(s.log, r.log);
    assert SplitAt(Run(paths, undeletable, sonarr, radarr, config).log, |s.log|);
  }

  /** In test mode the report does not depend on the store: nothing it reports comes from the file system. */
  lemma DryRunIgnoresStore(p1: set<string>, p2: set<string>, undeletable: set<string>,
                           sonarr: Catalog, radarr: Catalog, config: RunConfig)
    requires config.testMode
    ensures Run(p1, undeletable, sonarr, radarr, config).log == Run(p2, undeletable, sonarr, radarr, config).log
  {
    DryServicePass(p1, p2, undeletable, sonarr, Sonarr, config);
    DryServicePass(p1, p2, undeletable, radarr, Radarr, config);
    ServicePassStore(p1, undeletable, sonarr, Sonarr, config);
    ServicePassStore(p2, undeletable, sonarr, Sonarr, config);
  }

  lemma DryServicePass(p1: set<string>, p2: set<string>, undeletable: set<string>, c: Catalog,
                       service: Service, config: RunConfig)
    requires config.testMode
    ensures ServicePass(p1, undeletable, c, service, config).log == ServicePass(p2, undeletable, c, service, config).log
  {
    if Collect(c).files.Ok? {
      DryPassIgnoresStore(p1, p2, undeletable, Collect(c).files.value, service, config);
    }
  }
}
