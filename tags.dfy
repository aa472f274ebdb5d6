/**
 * Tag resolution and the protection test: `get_sonarr_tags` / `get_radarr_tags`
 * turn a catalog's tag list into an id -> label dictionary, and
 * `has_keeper_tag_sonarr` / `has_keeper_tag_radarr` (identical code) ask
 * whether one of an item's tag ids is labelled "keeper", ignoring case.
 */
module Tags {

  /** A tag record of a catalog; `name` is the record's `label`. */
  datatype Tag = Tag(id: int, name: string)

  /** The label that protects an item, `EXCLUDE_TAG`. */
  const EXCLUDE_TAG: string := "keeper"

  /**
   * `{tag['id']: tag['label'] for tag in tags}`: every listed id is a key, and
   * when an id is listed twice the later record wins.
   */
  function TagMap(tags: seq<Tag>): map<int, string> {
    if tags == [] then map[]
    else TagMap(tags[..|tags| - 1])[tags[|tags| - 1].id := tags[|tags| - 1].name]
  }

  /** The keys of `TagMap(tags)` are exactly the listed ids. */
  lemma {:induction false} TagMapKeys(tags: seq<Tag>)
    ensures forall id :: id in TagMap(tags) <==> exists i :: 0 <= i < |tags| && tags[i].id == id
  {
    if tags != [] {
      var front := tags[..|tags| - 1];
      var last := tags[|tags| - 1];
      TagMapKeys(front);
      forall id
        ensures id in TagMap(tags) <==> exists i :: 0 <= i < |tags| && tags[i].id == id
      {
        if id in TagMap(tags) && id != last.id {
          assert TagMap(tags) == TagMap(front)[last.id := last.name];
          assert id in TagMap(front);
          var i :| 0 <= i < |front| && front[i].id == id;
          assert tags[i].id == id;
        }
        if exists i :: 0 <= i < |tags| && tags[i].id == id {
          var i :| 0 <= i < |tags| && tags[i].id == id;
          if i < |front| {
            assert front[i].id == id;
          }
        }
      }
    }
  }

  /** Each listed id is mapped to the label of the last record that carries it. */
  lemma {:induction false} TagMapLastWins(tags: seq<Tag>, i: int)
    requires 0 <= i < |tags| && LastWithId(tags, i)
    ensures tags[i].id in TagMap(tags) && TagMap(tags)[tags[i].id] == tags[i].name
  {
    var front := tags[..|tags| - 1];
    if i < |front| {
      assert tags[i] == front[i];
      assert LastWithId(front, i);
      TagMapLastWins(front, i);
    }
  }

  /** No tag after position `i` has the same id as `tags[i]`. */
  predicate LastWithId(tags: seq<Tag>, i: int)
    requires 0 <= i < |tags|
  {
    forall j :: i < j < |tags| ==> tags[j].id != tags[i].id
  }

  /** ASCII lower-casing of one character. */
  function LowerChar(c: char): char {
    if 'A' <= c <= 'Z' then (c as int - 'A' as int + 'a' as int) as char else c
  }

  /** `str.lower()` restricted to ASCII letters. */
  function Lower(s: string): string {
    seq(|s|, i requires 0 <= i < |s| => LowerChar(s[i]))
  }

  /** `label.lower() == EXCLUDE_TAG.lower()`. */
  predicate IsKeeperLabel(text: string) {
    Lower(text) == Lower(EXCLUDE_TAG)
  }

  /** `tags.get(tag_id, '')`: an unknown id reads as the empty label. */
  function LabelOf(tags: map<int, string>, id: int): string {
    if id in tags then tags[id] else ""
  }

  /**
   * `has_keeper_tag_*`: the scan over `tag_ids` with an early return, true
   * exactly when some listed id is known and its label is "keeper" in any case.
   */
  function HasKeeperTag(tagIds: seq<int>, tags: map<int, string>): (r: bool)
    ensures r <==> exists i :: 0 <= i < |tagIds| && tagIds[i] in tags && IsKeeperLabel(tags[tagIds[i]])
  {
    if tagIds == [] then false
    else if IsKeeperLabel(LabelOf(tags, tagIds[0])) then true
    else
      assert !IsKeeperLabel("") by {
        assert |Lower("")| != |Lower(EXCLUDE_TAG)|;
      }
      assert forall i :: 1 <= i < |tagIds| ==> tagIds[1..][i - 1] == tagIds[i];
      HasKeeperTag(tagIds[1..], tags)
  }

  /** The labels that protect are exactly the six-letter spellings of "keeper" in any mix of case. */
  lemma KeeperLabelSpellings(text: string)
    ensures IsKeeperLabel(text) <==>
      |text| == 6 && forall i :: 0 <= i < 6 ==> text[i] == "keeper"[i] || text[i] == "KEEPER"[i]
  {
    var k := Lower(EXCLUDE_TAG);
    assert k == "keeper";
    if IsKeeperLabel(text) {
      forall i | 0 <= i < 6
        ensures text[i] == "keeper"[i] || text[i] == "KEEPER"[i]
      {
        assert LowerChar(text[i]) == k[i];
      }
    }
    if |text| == 6 && forall i :: 0 <= i < 6 ==> text[i] == "keeper"[i] || text[i] == "KEEPER"[i] {
      assert forall i :: 0 <= i < 6 ==> Lower(text)[i] == k[i];
    }
  }

  /** Only which ids are listed matters: not their order, not repetitions. */
  lemma KeeperTagIgnoresOrder(a: seq<int>, b: seq<int>, tags: map<int, string>)
    requires forall id :: id in a <==> id in b
    ensures HasKeeperTag(a, tags) == HasKeeperTag(b, tags)
  {
    if HasKeeperTag(a, tags) {
      var i :| 0 <= i < |a| && a[i] in tags && IsKeeperLabel(tags[a[i]]);
      assert a[i] in a;
      var j :| 0 <= j < |b| && b[j] == a[i];
    }
    if HasKeeperTag(b, tags) {
      var j :| 0 <= j < |b| && b[j] in tags && IsKeeperLabel(tags[b[j]]);
      assert b[j] in b;
      var i :| 0 <= i < |a| && a[i] == b[j];
    }
  }
}
