# Purgearr retention core, modelled in Dafny

Purgearr is one script, `Purgearr.py`. It asks a Sonarr server (series) and a
Radarr server (movies) for their media files. Every file added before a cutoff
(90 days before the run) is deleted, or only reported in test mode. A series or
movie that carries the tag `keeper`, compared case-insensitively, is skipped
entirely.

This project models that retention logic and proves properties about it:

- `Timestamps` models `parse_date`. It tries two `strptime` formats:
  `%Y-%m-%dT%H:%M:%S.%fZ` first, then `%Y-%m-%dT%H:%M:%S%z`. The zone is then
  dropped without being applied. The module also covers the `datetime`
  validity rules and Python's `<` on naive datetimes. `%z` follows Python 3.7
  and later, which accept `Z` and `+HH:MM` as well as `+HHMM`; before 3.7,
  `...T10:20:30Z` raises.
- `Tags` models the tag map (`get_*_tags`) and `has_keeper_tag_sonarr` /
  `has_keeper_tag_radarr`. The two copies in the source are identical, so one
  model covers both.
- `Catalogs` models `get_sonarr_files` / `get_radarr_files` over an abstract
  catalogue. A catalogue holds the item-list response, the tag-list response,
  and the file-list response for each item id. Each response is a value or a
  request error. `CollectFiles` is the loop as the source writes it. It is
  proved equal to the recursive specification `Collect`, and lemmas
  characterise `Collect`. The Radarr function (lines 95-118) is the same code
  as the Sonarr one and shares its model.
- `Purge` models `handle_old_files`, with the file system as a `FileStore`
  object. That object holds the set of existing paths and the paths whose
  `os.remove` fails. `HandleOldFiles` is the loop, proved equal to the
  recursive `HandleFiles`. Each `print` becomes an `Entry` in a report log.
- `Driver` models `main`. It runs the Sonarr pass and then the Radarr pass
  against the same store, each behind its own `except`. `PurgeOldFiles` is
  the method; `Run` is its specification.

Several things outside the code are inputs to the model: the cutoff and
test mode (`RunConfig`), the catalogues' responses (`Catalog`), and which
paths exist or cannot be removed (`FileStore`).

The model keeps these behaviours of `Purgearr.py`, which one might not expect:

- **Request order:** the item list is requested before the tag list (lines
  55-60). A failed item-list request therefore means the tags are never
  requested.
- **Zone offsets:** a `%z` offset is stripped, not applied (line 36), so
  `10:00:00+02:00` and `10:00:00.000Z` give the same value
  (`Timestamps.ZoneDiscarded`).
- **Failed file-list request:** it raises out of the whole catalogue pass
  (line 74), not only out of that item. Later items are not requested
  (`Catalogs.ScanStopsAtFirstFailure`).
- **Unparseable date:** it raises out of the whole pass of that service
  (line 123), not only out of that file. Later files make no difference
  (`Purge.BadDateEndsPass`). A failed removal, in contrast, is caught per
  file (lines 130-134).

## Model

| member | source | states |
|---|---|---|
| Timestamps.ParseDate | Purgearr.py:27-36 | every accepted text yields a valid datetime; a rejected text raises a `ParseError` (standing for the `ValueError`) |
| Timestamps.ParseClock | Purgearr.py:30-33 | the common `YYYY-MM-DDTHH:MM:SS` head parses only to a valid datetime with zero microseconds |
| Timestamps.ParseWithFraction | Purgearr.py:30 | the first format yields only valid datetimes, with 1-6 fraction digits read as microseconds |
| Timestamps.ParseSuffix | Purgearr.py:33 | an accepted `%z` designator is `Z` or an offset with hours at most 23 and minutes at most 59 |
| Timestamps.ParseWithOffset | Purgearr.py:33 | the second format yields only valid datetimes with zero microseconds |
| Timestamps.BeforeIsStrictTotalOrder | Purgearr.py:126 | the comparison of two naive datetimes is irreflexive, transitive and total |
| Timestamps.ClockRoundTrip | Purgearr.py:30-33 | printing a valid datetime's clock fields and parsing them back gives the same fields |
| Timestamps.ClockComplete | Purgearr.py:30-33 | every accepted clock head is the printing of what it parses to |
| Timestamps.SuffixRoundTrip | Purgearr.py:33 | every valid zone designator parses back to itself |
| Timestamps.SuffixComplete | Purgearr.py:33 | every accepted zone designator is the printing of what it parses to |
| Timestamps.FractionRoundTrip | Purgearr.py:30 | a valid datetime printed in the first format with k digits (when its microseconds fit k digits) parses back to itself |
| Timestamps.OffsetRoundTrip | Purgearr.py:31-36 | a valid whole-second datetime printed in the second format parses back to itself, whatever the zone |
| Timestamps.ZoneDiscarded | Purgearr.py:35-36 | the same clock fields with any zone offset and with a `Z` fraction parse to the same value: the offset is not applied |
| Timestamps.FractionComplete | Purgearr.py:30 | every text the first format accepts is that format's printing of its result |
| Timestamps.OffsetComplete | Purgearr.py:33 | every text the second format accepts is that format's printing of its result and zone |
| Timestamps.ParseDateComplete | Purgearr.py:27-36 | every accepted text is one of the two printings of its result |
| Timestamps.FormatsDisjoint | Purgearr.py:28-33 | no text matches both formats, so the fallback order never changes a result |
| Timestamps.MonthThirteenRejected | Purgearr.py:28-33 | month 13 is rejected by both formats and raises |
| Tags.TagMapKeys | Purgearr.py:39-43 | the tag map's keys are exactly the ids of the listed tags |
| Tags.TagMapLastWins | Purgearr.py:43 | for a repeated id, the map keeps the label of the last tag with that id |
| Tags.HasKeeperTag | Purgearr.py:46-51 | an item is protected iff one of its tag ids is known and its label lower-cases to `keeper` |
| Tags.KeeperLabelSpellings | Purgearr.py:48 | a label matches iff it has six letters, each the lower- or upper-case letter of `keeper` |
| Tags.KeeperTagIgnoresOrder | Purgearr.py:46-51 | protection depends only on the set of tag ids, not their order or repetition |
| Catalogs.CollectFiles | Purgearr.py:54-77 | the loop returns the files, skipped titles and requested ids of the recursive specification `Collect` |
| Catalogs.ScanCollectsUnprotected | Purgearr.py:62-77 | when all requests succeed, the files are the concatenation of the unprotected items' lists; only those ids are requested; the skipped titles are exactly the protected ones, in order |
| Catalogs.ScanStopsAtFirstFailure | Purgearr.py:71-75 | when a file-list request fails, the scan raises the first failing item's error, and no later item is requested |
| Catalogs.CollectOutcome | Purgearr.py:54-77 | collection succeeds iff the item list, the tag list and every unprotected item's file list succeed; then the files are that concatenation |
| Catalogs.ProtectedSeriesSkipped | Purgearr.py:67-69 | a series tagged `keeper` is reported as skipped and its files are never requested |
| Purge.FileStore.Remove | Purgearr.py:131 | `os.remove` removes exactly the path when it exists and is deletable; otherwise it fails with that reason and changes nothing |
| Purge.HandleOldFiles | Purgearr.py:121-134 | the loop leaves the store, log and exception of the recursive specification `HandleFiles` |
| Purge.Processed | Purgearr.py:121-123 | the files the pass reaches form the longest prefix whose dates all parse |
| Purge.Reached | Purgearr.py:121-126 | the files acted on are all dated strictly before the cutoff and come from the input |
| Purge.ReachedIsEligibleProcessed | Purgearr.py:121-126 | a file is acted on iff the pass reaches it and its date is strictly before the cutoff |
| Purge.ReachedFiltersProcessed | Purgearr.py:121-126 | the files acted on, in order, are exactly the reached prefix filtered by eligibility |
| Purge.HandleRemoves | Purgearr.py:121-134 | test mode leaves the store unchanged; otherwise exactly the deletable paths of the eligible files reached are removed, and a failed removal does not stop the pass |
| Purge.HandleReports | Purgearr.py:121-134 | the report is one line per eligible file reached, in order, judged against the store before the pass |
| Purge.HandleFailure | Purgearr.py:121-123 | the pass ends cleanly iff every date parses; otherwise it raises the first unparseable date's error |
| Purge.FailureIffBadDate | Purgearr.py:123 | the pass raises iff some date does not parse, and then with a date error |
| Purge.BadDateEndsPass | Purgearr.py:122-123 | files after one with an unparseable date change nothing |
| Purge.CutoffIsExclusive | Purgearr.py:126 | a file dated exactly at the cutoff is kept |
| Purge.ActRemoves | Purgearr.py:129-134 | one old file removes its path from the store exactly when it is present and deletable |
| Purge.HandleLines | Purgearr.py:127-134 | every line of the pass is a would-delete naming its service (test mode), or a deletion naming its service or a failed deletion (otherwise) |
| Purge.DryPassIgnoresStore | Purgearr.py:127-128 | in test mode the pass's report and exception do not depend on the store, and the store is unchanged |
| Driver.RunService | Purgearr.py:139-144 | one `try` block leaves the store and report of the specification `ServicePass` |
| Driver.PurgeOldFiles | Purgearr.py:137-152 | `main` leaves the store and report of the specification `Run` |
| Driver.ServicePassShape | Purgearr.py:139-144 | a service's report opens with its one announcement, names no other service, and ends with an error line iff a request failed or a date did not parse |
| Driver.ServicePassReport | Purgearr.py:139-144 | a read catalogue reports the announcement, the protected titles in order, one line per eligible file reached, then the first date error if any |
| Driver.ServicePassStore | Purgearr.py:139-144 | one service's pass removes exactly the deletable paths it targets, and nothing in test mode |
| Driver.RunStore | Purgearr.py:137-152 | a run removes exactly the deletable paths either service targets, whether or not the other pass failed; a dry run removes nothing |
| Driver.RunOrder | Purgearr.py:137-152 | the report is the Sonarr pass followed by the Radarr pass; the Radarr pass always runs, and the two never interleave |
| Driver.DryRunIgnoresStore | Purgearr.py:137-152 | in test mode the whole report does not depend on the file system |
| Driver.DryServicePass | Purgearr.py:139-144 | in test mode one service's report does not depend on the file system |

## Left out

- HTTP, headers, URLs and JSON decoding (lines 7-18, 40-42, 55-57, 73-75) are not modelled. Each response is an abstract value or a request error. A response missing a key (`title`, `id`, `path`, `dateAdded`) or of the wrong shape is not modelled.
- The clock (line 21) is not modelled. The cutoff is a parameter, and how it is computed ("90 days ago") is not modelled.
- Command-line parsing (lines 154-159) is not modelled; test mode is a parameter.
- `print` text is not modelled. Each message is an `Entry` value, and Python's rendering of a `datetime` in the messages is left out.
- Timestamps.ParseDate: a `ParseError` carries the input text in place of the `ValueError`'s message. The message itself (for example "day is out of range for month") is not modelled.
- `os.remove` failures are reduced to two reasons, "no such path" and "refused". Exception messages are not modelled.
- `strptime` is modelled only on its fixed-width ASCII subset. These are left out: fields with fewer digits than their width, lower-case `t`/`z`, `%z` offsets with seconds or microseconds, and non-ASCII digits. Offsets of 24 hours or more are modelled: both Python and the model reject them.
- `str.lower` is modelled on ASCII letters only.
- Nothing else changes the file store during a run; concurrent modification is left out.
- Purge.HandleReports: states the report only when test mode is on or the file paths are distinct. With a repeated path, the second removal reports "no such path". `HandleFiles` models that case, but this lemma does not state it.
- Driver.ServicePassReport: carries the same distinct-paths condition as `Purge.HandleReports`.
- Catalogs.ScanStopsAtFirstFailure: states the error and the ids requested, but not the titles reported as skipped before the failure. `Collect` models those titles.
