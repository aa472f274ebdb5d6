/**
 * File collection, `get_sonarr_files` / `get_radarr_files` (identical code):
 * list the items, fetch the tags, then walk the items in listing order,
 * skipping protected ones and appending every other item's file list.
 * The HTTP requests are replaced by a `Catalog` value holding their results.
 */
module Catalogs {
  import opened Results
  import opened Tags

  /** A file record of a catalog (`episodefile` / `moviefile`): its path and its `dateAdded` text. */
  datatype MediaFile = MediaFile(path: string, dateAdded: string)

  /** A series or movie record; `tagIds` is `[]` when the record has no `tags` key. */
  datatype Item = Item(id: int, title: string, tagIds: seq<int>)

  /** A failed request: transport failure, an HTTP error status or an undecodable body. */
  datatype RequestError = RequestError(detail: string)

  /**
   * What one catalog would answer: the item list, the tag list, and for each
   * item id the answer to its file-list request.
   */
  datatype Catalog = Catalog(
    items: Result<seq<Item>, RequestError>,
    tags: Result<seq<Tag>, RequestError>,
    fileLists: int -> Result<seq<MediaFile>, RequestError>)

  /**
   * The outcome of a collection: the file list or the error raised, the titles
   * reported as skipped, and the item ids whose file lists were requested.
   */
  datatype Collection = Collection(
    files: Result<seq<MediaFile>, RequestError>,
    skipped: seq<string>,
    requested: seq<int>)

  /** `done` followed by `rest`: an error in `rest` replaces the files gathered so far. */
  function Then(done: Collection, rest: Collection): Collection
    requires done.files.Ok?
  {
    Collection(
      if rest.files.Ok? then Ok(done.files.value + rest.files.value) else rest.files,
      done.skipped + rest.skipped,
      done.requested + rest.requested)
  }

  /** The loop over the items, one item at a time. */
  function ScanItems(items: seq<Item>, tags: map<int, string>,
                     fetch: int -> Result<seq<MediaFile>, RequestError>): Collection
    decreases |items|
  {
    if items == [] then Collection(Ok([]), [], [])
    else
      var item := items[0];
      if HasKeeperTag(item.tagIds, tags) then
        Then(Collection(Ok([]), [item.title], []), ScanItems(items[1..], tags, fetch))
      else
        match fetch(item.id)
        case Err(e) => Collection(Err(e), [], [item.id])
        case Ok(fs) => Then(Collection(Ok(fs), [], [item.id]), ScanItems(items[1..], tags, fetch))
  }

  /** `get_*_files`: the item list first, then the tags, then the scan. */
  function Collect(c: Catalog): Collection {
    match c.items
    case Err(e) => Collection(Err(e), [], [])
    case Ok(items) =>
      match c.tags
      case Err(e) => Collection(Err(e), [], [])
      case Ok(tags) => ScanItems(items, TagMap(tags), c.fileLists)
  }

  lemma ThenAssociates(a: Collection, b: Collection, r: Collection)
    requires a.files.Ok? && b.files.Ok?
    ensures Then(a, Then(b, r)) == Then(Then(a, b), r)
  {
    assert a.skipped + (b.skipped + r.skipped) == (a.skipped + b.skipped) + r.skipped;
    assert a.requested + (b.requested + r.requested) == (a.requested + b.requested) + r.requested;
    if r.files.Ok? {
      var x, y, z := a.files.value, b.files.value, r.files.value;
      assert x + (y + z) == (x + y) + z;
    }
  }

  lemma ThenIdentity(r: Collection)
    ensures Then(Collection(Ok([]), [], []), r) == r
    ensures r.files.Ok? ==> Then(r, Collection(Ok([]), [], [])) == r
  {
    assert [] + r.skipped == r.skipped && [] + r.requested == r.requested;
    if r.files.Ok? {
      assert [] + r.files.value == r.files.value;
      assert r.files.value + [] == r.files.value;
      assert r.skipped + [] == r.skipped && r.requested + [] == r.requested;
    }
  }

  /** One turn of the loop: the scan of `items[i..]` in terms of `items[i]` and the scan of `items[i + 1..]`. */
  lemma ScanStep(items: seq<Item>, i: int, tags: map<int, string>,
                 fetch: int -> Result<seq<MediaFile>, RequestError>)
    requires 0 <= i < |items|
    ensures var item, rest := items[i], ScanItems(items[i + 1..], tags, fetch);
      ScanItems(items[i..], tags, fetch) ==
        if HasKeeperTag(item.tagIds, tags) then Then(Collection(Ok([]), [item.title], []), rest)
        else match fetch(item.id)
          case Err(e) => Collection(Err(e), [], [item.id])
          case Ok(fs) => Then(Collection(Ok(fs), [], [item.id]), rest)
  {
    assert items[i..][0] == items[i];
    assert items[i..][1..] == items[i + 1..];
  }

  /** `get_*_files` as the source runs it: requests in order, a growing list, `continue` for protected items. */
  method CollectFiles(c: Catalog)
    returns (files: Result<seq<MediaFile>, RequestError>, skipped: seq<string>, requested: seq<int>)
    ensures Collection(files, skipped, requested) == Collect(c)
  {
    skipped, requested := [], [];
    if c.items.Err? {
      files := Err(c.items.error);
      return;
    }
    var items := c.items.value;
    if c.tags.Err? {
      files := Err(c.tags.error);
      return;
    }
    var tags := TagMap(c.tags.value);
    ghost var fetch := c.fileLists;
    var all: seq<MediaFile> := [];
    var i := 0;
    assert items[i..] == items;
    ThenIdentity(ScanItems(items, tags, fetch));
    while i < |items|
      invariant 0 <= i <= |items|
      invariant ScanItems(items, tags, fetch)
             == Then(Collection(Ok(all), skipped, requested), ScanItems(items[i..], tags, fetch))
    {
      var item := items[i];
      ScanStep(items, i, tags, fetch);
      ghost var done := Collection(Ok(all), skipped, requested);
      ghost var rest := ScanItems(items[i + 1..], tags, fetch);
      if HasKeeperTag(item.tagIds, tags) {
        assert ScanItems(items[i..], tags, fetch) == Then(Collection(Ok([]), [item.title], []), rest);
        ThenAssociates(done, Collection(Ok([]), [item.title], []), rest);
        assert all + [] == all && requested + [] == requested;
        assert Then(done, Collection(Ok([]), [item.title], [])) == Collection(Ok(all), skipped + [item.title], requested);
        skipped := skipped + [item.title];
        i := i + 1;
        continue;
      }
      requested := requested + [item.id];
      var response := c.fileLists(item.id);
      if response.Err? {
        files := Err(response.error);
        return;
      }
      assert ScanItems(items[i..], tags, fetch) == Then(Collection(Ok(response.value), [], [item.id]), rest);
      ThenAssociates(done, Collection(Ok(response.value), [], [item.id]), rest);
      assert skipped + [] == skipped;
      assert Then(done, Collection(Ok(response.value), [], [item.id])) == Collection(Ok(all + response.value), skipped, requested);
      all := all + response.value;
      i := i + 1;
    }
    files := Ok(all);
    assert items[i..] == [];
    ThenIdentity(Collection(files, skipped, requested));
  }

  // ------------------------------------------- reference definitions

  /** The items that are not protected, in listing order. */
  function Unprotected(items: seq<Item>, tags: map<int, string>): seq<Item> {
    if items == [] then []
    else (if HasKeeperTag(items[0].tagIds, tags) then [] else [items[0]]) + Unprotected(items[1..], tags)
  }

  /** The titles of the protected items, in listing order. */
  function ProtectedTitles(items: seq<Item>, tags: map<int, string>): seq<string> {
    if items == [] then []
    else (if HasKeeperTag(items[0].tagIds, tags) then [items[0].title] else []) + ProtectedTitles(items[1..], tags)
  }

  function Ids(items: seq<Item>): seq<int> {
    if items == [] then [] else [items[0].id] + Ids(items[1..])
  }

  predicate AllFetched(items: seq<Item>, fetch: int -> Result<seq<MediaFile>, RequestError>) {
    forall i :: 0 <= i < |items| ==> fetch(items[i].id).Ok?
  }

  /** The concatenation of the items' file lists, in order. */
  function FilesOf(items: seq<Item>, fetch: int -> Result<seq<MediaFile>, RequestError>): seq<MediaFile>
    requires AllFetched(items, fetch)
  {
    if items == [] then [] else fetch(items[0].id).value + FilesOf(items[1..], fetch)
  }

  /**
   * When every unprotected item's request succeeds, the scan returns the
   * concatenation of exactly their file lists, requests exactly their ids,
   * and reports exactly the protected titles.
   */
  lemma {:induction false} ScanCollectsUnprotected(items: seq<Item>, tags: map<int, string>,
                                                   fetch: int -> Result<seq<MediaFile>, RequestError>)
    requires AllFetched(Unprotected(items, tags), fetch)
    ensures var u := Unprotected(items, tags);
      ScanItems(items, tags, fetch) == Collection(Ok(FilesOf(u, fetch)), ProtectedTitles(items, tags), Ids(u))
  {
    if items != [] {
      var x, rest := items[0], items[1..];
      var u := Unprotected(rest, tags);
      if HasKeeperTag(x.tagIds, tags) {
        assert Unprotected(items, tags) == u;
        ScanCollectsUnprotected(rest, tags, fetch);
        ThenIdentity(ScanItems(rest, tags, fetch));
        assert [] + FilesOf(u, fetch) == FilesOf(u, fetch) && [] + Ids(u) == Ids(u);
      } else {
        var xu := [x] + u;
        assert Unprotected(items, tags) == xu;
        assert xu[0] == x && xu[1..] == u;
        assert fetch(xu[0].id).Ok?;
        assert AllFetched(u, fetch) by {
          forall i | 0 <= i < |u| ensures fetch(u[i].id).Ok? {
            assert u[i] == xu[i + 1];
          }
        }
        ScanCollectsUnprotected(rest, tags, fetch);
        assert [] + ProtectedTitles(rest, tags) == ProtectedTitles(rest, tags);
      }
    }
  }

  lemma AllFetchedCons(x: Item, u: seq<Item>, fetch: int -> Result<seq<MediaFile>, RequestError>)
    ensures AllFetched([x] + u, fetch) <==> fetch(x.id).Ok? && AllFetched(u, fetch)
  {
    var xu := [x] + u;
    if fetch(x.id).Ok? && AllFetched(u, fetch) {
      forall i | 0 <= i < |xu| ensures fetch(xu[i].id).Ok? {
        if i > 0 { assert xu[i] == u[i - 1]; }
      }
    }
    if AllFetched(xu, fetch) {
      assert xu[0] == x;
      forall i | 0 <= i < |u| ensures fetch(u[i].id).Ok? {
        assert u[i] == xu[i + 1];
      }
    }
  }

  lemma PrefixCons(x: Item, u: seq<Item>, k: nat, fetch: int -> Result<seq<MediaFile>, RequestError>)
    requires k <= |u|
    ensures AllFetched(([x] + u)[..k + 1], fetch) <==> fetch(x.id).Ok? && AllFetched(u[..k], fetch)
    ensures Ids(([x] + u)[..k + 1]) == [x.id] + Ids(u[..k])
  {
    var xu := [x] + u;
    assert xu[..k + 1] == [x] + u[..k];
    assert xu[..k + 1][1..] == u[..k];
    AllFetchedCons(x, u[..k], fetch);
  }

  /** `u[k]` is the first item of `u` whose request fails, and the scan `r` shows exactly that. */
  predicate FailsFirstAt(u: seq<Item>, k: int, r: Collection, fetch: int -> Result<seq<MediaFile>, RequestError>) {
    && 0 <= k < |u| && AllFetched(u[..k], fetch) && fetch(u[k].id).Err?
    && r.files == Err(fetch(u[k].id).error) && r.requested == Ids(u[..k + 1])
  }

  /**
   * When some unprotected item's request fails, the scan raises the error of
   * the first such item, and the requests made are the unprotected ids up to
   * and including that one: nothing after it is requested.
   */
  lemma {:induction false} ScanStopsAtFirstFailure(items: seq<Item>, tags: map<int, string>,
                                                   fetch: int -> Result<seq<MediaFile>, RequestError>)
    requires !AllFetched(Unprotected(items, tags), fetch)
    ensures exists k :: FailsFirstAt(Unprotected(items, tags), k, ScanItems(items, tags, fetch), fetch)
  {
    var x, rest := items[0], items[1..];
    var u := Unprotected(rest, tags);
    if HasKeeperTag(x.tagIds, tags) {
      assert Unprotected(items, tags) == u;
      ScanStopsAtFirstFailure(rest, tags, fetch);
      var k :| FailsFirstAt(u, k, ScanItems(rest, tags, fetch), fetch);
      assert [] + Ids(u[..k + 1]) == Ids(u[..k + 1]);
      assert FailsFirstAt(u, k, ScanItems(items, tags, fetch), fetch);
    } else {
      assert Unprotected(items, tags) == [x] + u;
      AllFetchedCons(x, u, fetch);
      if fetch(x.id).Err? {
        FailureHere(x, u, ScanItems(items, tags, fetch), fetch);
      } else {
        ScanStopsAtFirstFailure(rest, tags, fetch);
        var k :| FailsFirstAt(u, k, ScanItems(rest, tags, fetch), fetch);
        FailureLater(x, u, k, ScanItems(rest, tags, fetch), ScanItems(items, tags, fetch), fetch);
      }
    }
  }

  lemma FailureHere(x: Item, u: seq<Item>, r: Collection, fetch: int -> Result<seq<MediaFile>, RequestError>)
    requires fetch(x.id).Err? && r == Collection(Err(fetch(x.id).error), [], [x.id])
    ensures FailsFirstAt([x] + u, 0, r, fetch)
  {
    PrefixCons(x, u, 0, fetch);
    assert ([x] + u)[..0] == [] && u[..0] == [];
  }

  lemma FailureLater(x: Item, u: seq<Item>, k: int, rest: Collection, r: Collection,
                     fetch: int -> Result<seq<MediaFile>, RequestError>)
    requires fetch(x.id).Ok? && FailsFirstAt(u, k, rest, fetch)
    requires r == Then(Collection(Ok(fetch(x.id).value), [], [x.id]), rest)
    ensures FailsFirstAt([x] + u, k + 1, r, fetch)
  {
    PrefixCons(x, u, k, fetch);
    PrefixCons(x, u, k + 1, fetch);
    assert ([x] + u)[k + 1] == u[k];
  }

  /**
   * `get_*_files` returns a list iff the item list, the tag list and every
   * unprotected item's file list were fetched; the list is then exactly the
   * unprotected items' files in order, and no partial list is ever returned.
   */
  lemma CollectOutcome(c: Catalog)
    ensures Collect(c).files.Ok? <==>
      c.items.Ok? && c.tags.Ok? && AllFetched(Unprotected(c.items.value, TagMap(c.tags.value)), c.fileLists)
    ensures Collect(c).files.Ok? ==>
      var u := Unprotected(c.items.value, TagMap(c.tags.value));
      Collect(c).files.value == FilesOf(u, c.fileLists) && Collect(c).requested == Ids(u)
  {
    if c.items.Ok? && c.tags.Ok? {
      var items, tags := c.items.value, TagMap(c.tags.value);
      if AllFetched(Unprotected(items, tags), c.fileLists) {
        ScanCollectsUnprotected(items, tags, c.fileLists);
      } else {
        ScanStopsAtFirstFailure(items, tags, c.fileLists);
      }
    }
  }

  /** A series whose tag 5 is labelled "keeper" is reported as skipped and its files are never requested. */
  lemma ProtectedSeriesSkipped(fetch: int -> Result<seq<MediaFile>, RequestError>)
    ensures ScanItems([Item(1, "Show A", [5])], map[5 := "keeper"], fetch) == Collection(Ok([]), ["Show A"], [])
  {
    assert HasKeeperTag([5], map[5 := "keeper"]) by {
      assert [5][0] == 5;
    }
    assert [Item(1, "Show A", [5])][1..] == [];
  }
}
