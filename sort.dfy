/**
 * Track-list sorting: the tag colour cycle, the direction toggle, the tag
 * rank and getSortedTracks with its column comparator.
 */
module Sort {
  import opened Wrappers
  import opened JsText
  import opened Tracks
  import opened StableSort

  /** The tag colours in sort order; position 0 (null) is the untagged state. */
  const TagCycle: seq<Option<string>> := [
    None,
    Some("var(--red)"),
    Some("var(--bristol-orange)"),
    Some("var(--yellow-warm)"),
    Some("var(--meadow-green)"),
    Some("var(--mint)"),
    Some("var(--cornflower-blue)")
  ]

  /** The rank shared by every track without a colour of the cycle. */
  const LastRank := |TagCycle|

  /** The direction after a click on the sorted column: 1 becomes -1, anything else 1. */
  function NextSortDirection(current: int): (next: int)
    ensures next == -1 <==> current == 1
    ensures next == 1 <==> current != 1
  {
    if current == 1 then -1 else 1
  }

  /** On the two directions the toggle is an involution. */
  lemma NextSortDirectionInvolution(d: int)
    requires d == 1 || d == -1
    ensures NextSortDirection(d) == -d
    ensures NextSortDirection(NextSortDirection(d)) == d
  {
  }

  /** tagRank: a cycle colour's position (1 to 6); null or an unknown colour ranks last (7). */
  function TagRank(color: Option<string>): (r: nat)
    ensures 1 <= r <= LastRank
    ensures r < LastRank <==> color.Some? && color in TagCycle
    ensures r < LastRank ==> TagCycle[r] == color
  {
    var idx := FirstIndex(TagCycle, color);
    if idx <= 0 then LastRank else idx
  }

  /** Each colour of the cycle ranks at its own position: red 1, through cornflower blue 6. */
  lemma TagRankOfCycle()
    ensures forall i :: 1 <= i < LastRank ==> TagRank(TagCycle[i]) == i
  {
    forall i | 1 <= i < LastRank ensures TagRank(TagCycle[i]) == i {
      var r := TagRank(TagCycle[i]);
      assert TagCycle[r] == TagCycle[i];
    }
  }

  /** A track paired with its position in the input list. */
  datatype Ranked = Ranked(track: Track, i: int)

  /** `colorTags?.get(String(track.trackId))`; None when there is no map or no entry. */
  function TagOf(tags: Option<map<string, string>>, t: Track): Option<string> {
    var key := DecimalString(t.trackId);
    if tags.Some? && key in tags.value then Some(tags.value[key]) else None
  }

  /** The rank of a track's colour. */
  function TrackRank(tags: Option<map<string, string>>, t: Track): nat {
    TagRank(TagOf(tags, t))
  }

  /**
   * `r` has the sign of `dir` times `x`: the order of `x` when the direction
   * is positive, the opposite order when it is negative, a tie when it is 0.
   */
  predicate ScaledSign(r: int, dir: int, x: int) {
    && (dir > 0 ==> (r < 0 <==> x < 0) && (r > 0 <==> x > 0))
    && (dir < 0 ==> (r < 0 <==> x > 0) && (r > 0 <==> x < 0))
    && (dir == 0 ==> r == 0)
  }

  /** `dir * x`, the comparison `x` turned by the sort direction. */
  function Scaled(dir: int, x: int): (r: int)
    ensures ScaledSign(r, dir, x)
  {
    dir * x
  }

  /**
   * The comparator of getSortedTracks for a column and direction. `collate`
   * stands for `String.prototype.localeCompare`.
   */
  function Compare(column: string, dir: int, tags: Option<map<string, string>>,
                   collate: (string, string) -> int, a: Ranked, b: Ranked): (r: int)
    ensures column == "num" ==> ScaledSign(r, dir, a.i - b.i)
    ensures column == "tag" ==> r == TagOrder(dir, TrackRank(tags, a.track), TrackRank(tags, b.track))
    ensures column == "bpm" ==> ScaledSign(r, dir, NumberOr(a.track.bpm) - NumberOr(b.track.bpm))
    ensures column == "title" ==> ScaledSign(r, dir, collate(TextOr(a.track.name), TextOr(b.track.name)))
    ensures column == "time" ==> ScaledSign(r, dir, NumberOr(a.track.totalTime) - NumberOr(b.track.totalTime))
    ensures column == "artist" ==> ScaledSign(r, dir, collate(TextOr(a.track.artist), TextOr(b.track.artist)))
    ensures column == "comments" ==> ScaledSign(r, dir, collate(TextOr(a.track.comments), TextOr(b.track.comments)))
    ensures !KnownColumn(column) ==> r == 0
  {
    if column == "num" then Scaled(dir, a.i - b.i)
    else if column == "tag" then TagOrder(dir, TrackRank(tags, a.track), TrackRank(tags, b.track))
    else if column == "bpm" then Scaled(dir, NumberOr(a.track.bpm) - NumberOr(b.track.bpm))
    else if column == "title" then Scaled(dir, collate(TextOr(a.track.name), TextOr(b.track.name)))
    else if column == "time" then Scaled(dir, NumberOr(a.track.totalTime) - NumberOr(b.track.totalTime))
    else if column == "artist" then Scaled(dir, collate(TextOr(a.track.artist), TextOr(b.track.artist)))
    else if column == "comments" then Scaled(dir, collate(TextOr(a.track.comments), TextOr(b.track.comments)))
    else 0
  }

  /** The 'tag' case of the comparator on two ranks: rank 7 last in both directions, otherwise by direction. */
  function TagOrder(dir: int, ra: int, rb: int): (r: int)
    ensures ra == LastRank ==> (r == 0 <==> rb == LastRank) && (rb != LastRank ==> r > 0)
    ensures ra != LastRank && rb == LastRank ==> r < 0
    ensures ra != LastRank && rb != LastRank ==> ScaledSign(r, dir, ra - rb)
  {
    if ra == LastRank && rb == LastRank then 0
    else if ra == LastRank then 1
    else if rb == LastRank then -1
    else dir * (ra - rb)
  }

  /** The columns compared with `localeCompare`. */
  predicate TextColumn(column: string) {
    column == "title" || column == "artist" || column == "comments"
  }

  /** The column names the comparator knows. */
  predicate KnownColumn(column: string) {
    column in {"num", "tag", "bpm", "title", "time", "artist", "comments"}
  }

  function Comparator(column: string, dir: int, tags: Option<map<string, string>>,
                      collate: (string, string) -> int): (Ranked, Ranked) -> int
  {
    (a, b) => Compare(column, dir, tags, collate, a, b)
  }

  /** A sort is requested: a non-empty column name and a non-zero direction. */
  predicate SortActive(column: Option<string>, dir: int) {
    column.Some? && column.value != "" && dir != 0
  }

  /** `tracks.map((track, i) => ({ track, i }))`. */
  function Indexed(tracks: seq<Track>): (r: seq<Ranked>)
    ensures |r| == |tracks| && forall k :: 0 <= k < |r| ==> r[k] == Ranked(tracks[k], k)
  {
    seq(|tracks|, k requires 0 <= k < |tracks| => Ranked(tracks[k], k))
  }

  /** `indexed.map(item => item.track)`. */
  function TracksOf(rs: seq<Ranked>): (r: seq<Track>)
    ensures |r| == |rs| && forall k :: 0 <= k < |r| ==> r[k] == rs[k].track
  {
    seq(|rs|, k requires 0 <= k < |rs| => rs[k].track)
  }

  /** The pairs of an active sort, in sorted order. */
  function SortedRanked(tracks: seq<Track>, column: string, dir: int, tags: Option<map<string, string>>,
                        collate: (string, string) -> int): seq<Ranked>
  {
    Sort(Comparator(column, dir, tags, collate), Indexed(tracks))
  }

  /** What getSortedTracks returns. */
  function SortedTracks(tracks: seq<Track>, column: Option<string>, dir: int,
                        tags: Option<map<string, string>>, collate: (string, string) -> int): seq<Track>
  {
    if SortActive(column, dir) then TracksOf(SortedRanked(tracks, column.value, dir, tags, collate))
    else tracks
  }

  /** getSortedTracks: pairs each track with its index, sorts the pairs in place, drops the indices. */
  method GetSortedTracks(tracks: seq<Track>, column: Option<string>, dir: int,
                         tags: Option<map<string, string>>, collate: (string, string) -> int)
    returns (sorted: seq<Track>)
    ensures sorted == SortedTracks(tracks, column, dir, tags, collate)
    ensures !SortActive(column, dir) ==> sorted == tracks
  {
    if column.None? || column.value == "" || dir == 0 {
      return tracks;
    }
    var indexed := new Ranked[|tracks|](k requires 0 <= k < |tracks| => Ranked(tracks[k], k));
    assert indexed[..] == Indexed(tracks);
    InsertionSort(indexed, Comparator(column.value, dir, tags, collate));
    sorted := TracksOf(indexed[..]);
  }

  // ---------------------------------------------------------------------------
  // The comparator is consistent

  /** Scaling a difference of keys by the direction gives a consistent comparison. */
  lemma ScaledDifference(dir: int, p: int, q: int, r: int)
    ensures dir * (p - q) < 0 <==> dir * (q - p) > 0
    ensures dir * (p - q) <= 0 && dir * (q - r) <= 0 ==> dir * (p - r) <= 0
  {
    assert dir * (q - p) == -(dir * (p - q));
    assert dir * (p - r) == dir * (p - q) + dir * (q - r);
  }

  /** Scaling a consistent comparison by the direction keeps it consistent. */
  lemma ScaledComparison(dir: int, collate: (string, string) -> int, s: string, t: string, u: string)
    requires IsComparator(collate)
    ensures dir * collate(s, t) < 0 <==> dir * collate(t, s) > 0
    ensures dir * collate(s, t) <= 0 && dir * collate(t, u) <= 0 ==> dir * collate(s, u) <= 0
  {
    var st, ts, tu, ut, su, us := collate(s, t), collate(t, s), collate(t, u), collate(u, t), collate(s, u), collate(u, s);
    assert st < 0 <==> ts > 0;
    assert ts < 0 <==> st > 0;
    assert tu < 0 <==> ut > 0;
    assert us < 0 <==> su > 0;
    if dir > 0 {
      assert dir * st <= 0 <==> st <= 0;
      assert dir * tu <= 0 <==> tu <= 0;
      assert dir * su <= 0 <==> su <= 0;
      assert dir * st < 0 <==> st < 0;
      assert dir * ts > 0 <==> ts > 0;
    } else if dir < 0 {
      assert dir * st <= 0 <==> st >= 0;
      assert dir * tu <= 0 <==> tu >= 0;
      assert dir * su <= 0 <==> su >= 0;
      assert dir * st < 0 <==> st > 0;
      assert dir * ts > 0 <==> ts < 0;
      if st >= 0 && tu >= 0 {
        assert ut <= 0 && ts <= 0;
        assert us <= 0;
      }
    }
  }

  /** The 'tag' comparison is consistent whatever `localeCompare` does. */
  lemma TagCompareConsistent(dir: int, tags: Option<map<string, string>>,
                             collate: (string, string) -> int, x: Ranked, y: Ranked, z: Ranked)
    ensures Compare("tag", dir, tags, collate, x, y) < 0 <==> Compare("tag", dir, tags, collate, y, x) > 0
    ensures Compare("tag", dir, tags, collate, x, y) <= 0 && Compare("tag", dir, tags, collate, y, z) <= 0 ==>
      Compare("tag", dir, tags, collate, x, z) <= 0
  {
    TagOrderConsistent(dir, TrackRank(tags, x.track), TrackRank(tags, y.track), TrackRank(tags, z.track));
  }

  lemma TagOrderConsistent(dir: int, ra: int, rb: int, rc: int)
    ensures TagOrder(dir, ra, rb) < 0 <==> TagOrder(dir, rb, ra) > 0
    ensures TagOrder(dir, ra, rb) <= 0 && TagOrder(dir, rb, rc) <= 0 ==> TagOrder(dir, ra, rc) <= 0
  {
    ScaledDifference(dir, ra, rb, rc);
  }

  lemma CompareAntisymmetric(column: string, dir: int, tags: Option<map<string, string>>,
                             collate: (string, string) -> int, x: Ranked, y: Ranked)
    requires TextColumn(column) ==> IsComparator(collate)
    ensures Compare(column, dir, tags, collate, x, y) < 0 <==> Compare(column, dir, tags, collate, y, x) > 0
  {
    var a, b := x.track, y.track;
    if column == "num" {
      ScaledDifference(dir, x.i, y.i, 0);
    } else if column == "tag" {
      TagCompareConsistent(dir, tags, collate, x, y, y);
    } else if column == "bpm" {
      ScaledDifference(dir, NumberOr(a.bpm), NumberOr(b.bpm), 0);
    } else if column == "title" {
      ScaledComparison(dir, collate, TextOr(a.name), TextOr(b.name), "");
    } else if column == "time" {
      ScaledDifference(dir, NumberOr(a.totalTime), NumberOr(b.totalTime), 0);
    } else if column == "artist" {
      ScaledComparison(dir, collate, TextOr(a.artist), TextOr(b.artist), "");
    } else if column == "comments" {
      ScaledComparison(dir, collate, TextOr(a.comments), TextOr(b.comments), "");
    }
  }

  lemma CompareTransitive(column: string, dir: int, tags: Option<map<string, string>>,
                          collate: (string, string) -> int, x: Ranked, y: Ranked, z: Ranked)
    requires TextColumn(column) ==> IsComparator(collate)
    requires Compare(column, dir, tags, collate, x, y) <= 0 && Compare(column, dir, tags, collate, y, z) <= 0
    ensures Compare(column, dir, tags, collate, x, z) <= 0
  {
    var a, b, c := x.track, y.track, z.track;
    if column == "num" {
      ScaledDifference(dir, x.i, y.i, z.i);
    } else if column == "tag" {
      TagCompareConsistent(dir, tags, collate, x, y, z);
    } else if column == "bpm" {
      ScaledDifference(dir, NumberOr(a.bpm), NumberOr(b.bpm), NumberOr(c.bpm));
    } else if column == "title" {
      ScaledComparison(dir, collate, TextOr(a.name), TextOr(b.name), TextOr(c.name));
    } else if column == "time" {
      ScaledDifference(dir, NumberOr(a.totalTime), NumberOr(b.totalTime), NumberOr(c.totalTime));
    } else if column == "artist" {
      ScaledComparison(dir, collate, TextOr(a.artist), TextOr(b.artist), TextOr(c.artist));
    } else if column == "comments" {
      ScaledComparison(dir, collate, TextOr(a.comments), TextOr(b.comments), TextOr(c.comments));
    }
  }

  /**
   * The comparator of every column is consistent; for the text columns this
   * needs a consistent `localeCompare`.
   */
  lemma CompareIsComparator(column: string, dir: int, tags: Option<map<string, string>>,
                            collate: (string, string) -> int)
    requires TextColumn(column) ==> IsComparator(collate)
    ensures IsComparator(Comparator(column, dir, tags, collate))
  {
    var cmp := Comparator(column, dir, tags, collate);
    forall x, y ensures cmp(x, y) < 0 <==> cmp(y, x) > 0 {
      CompareAntisymmetric(column, dir, tags, collate, x, y);
    }
    forall x, y, z | cmp(x, y) <= 0 && cmp(y, z) <= 0 ensures cmp(x, z) <= 0 {
      CompareTransitive(column, dir, tags, collate, x, y, z);
    }
  }

  // ---------------------------------------------------------------------------
  // Properties of getSortedTracks

  lemma TracksOfAppend(p: seq<Ranked>, q: seq<Ranked>)
    ensures TracksOf(p + q) == TracksOf(p) + TracksOf(q)
  {
  }

  lemma {:induction false} TracksOfPermutes(a: seq<Ranked>, b: seq<Ranked>)
    requires multiset(a) == multiset(b)
    ensures multiset(TracksOf(a)) == multiset(TracksOf(b))
    decreases |a|
  {
    if a == [] {
      assert |multiset(b)| == 0;
    } else {
      var x := a[0];
      assert x in multiset(b);
      var k :| 0 <= k < |b| && b[k] == x;
      var rest := b[..k] + b[k + 1..];
      assert b == b[..k] + [x] + b[k + 1..];
      assert a == [x] + a[1..];
      assert multiset(a[1..]) == multiset(a) - multiset{x};
      assert multiset(rest) == multiset(b) - multiset{x};
      TracksOfPermutes(a[1..], rest);
      TracksOfAppend([x], a[1..]);
      TracksOfAppend(b[..k] + [x], b[k + 1..]);
      TracksOfAppend(b[..k], [x]);
      TracksOfAppend(b[..k], b[k + 1..]);
    }
  }

  /** The result is a permutation of the input. */
  lemma SortedTracksPermutes(tracks: seq<Track>, column: Option<string>, dir: int,
                             tags: Option<map<string, string>>, collate: (string, string) -> int)
    ensures multiset(SortedTracks(tracks, column, dir, tags, collate)) == multiset(tracks)
    ensures |SortedTracks(tracks, column, dir, tags, collate)| == |tracks|
  {
    if SortActive(column, dir) {
      var cmp := Comparator(column.value, dir, tags, collate);
      SortPermutes(cmp, Indexed(tracks));
      TracksOfPermutes(Sort(cmp, Indexed(tracks)), Indexed(tracks));
      assert TracksOf(Indexed(tracks)) == tracks;
    }
  }

  /** A value held at two positions of a sequence occurs at least twice in it. */
  lemma RepeatedTwice<T>(s: seq<T>, k: nat, m: nat)
    requires k < m < |s| && s[k] == s[m]
    ensures multiset(s)[s[k]] >= 2
  {
    assert s == s[..k] + [s[k]] + s[k + 1..m] + [s[m]] + s[m + 1..];
  }

  /** Each pair of the indexed list occurs in it once. */
  lemma IndexedOnce(tracks: seq<Track>, p: nat)
    requires p < |tracks|
    ensures multiset(Indexed(tracks))[Ranked(tracks[p], p)] == 1
  {
    var input := Indexed(tracks);
    assert input == input[..p] + [input[p]] + input[p + 1..];
    assert input[p] !in input[..p] && input[p] !in input[p + 1..];
  }

  /**
   * Each sorted pair holds the input track at its recorded index, and the
   * recorded indices are those of the input, each once.
   */
  lemma SortedRankedIndices(tracks: seq<Track>, column: string, dir: int,
                            tags: Option<map<string, string>>, collate: (string, string) -> int)
    ensures var rs := SortedRanked(tracks, column, dir, tags, collate);
      && |rs| == |tracks|
      && (forall k :: 0 <= k < |rs| ==> 0 <= rs[k].i < |tracks| && rs[k].track == tracks[rs[k].i])
      && (forall k, m :: 0 <= k < m < |rs| ==> rs[k].i != rs[m].i)
  {
    var rs := SortedRanked(tracks, column, dir, tags, collate);
    var input := Indexed(tracks);
    SortPermutes(Comparator(column, dir, tags, collate), input);
    assert |rs| == |multiset(rs)| == |multiset(input)| == |tracks|;
    forall k | 0 <= k < |rs| ensures 0 <= rs[k].i < |tracks| && rs[k].track == tracks[rs[k].i] {
      assert rs[k] in multiset(input);
    }
    forall k, m | 0 <= k < m < |rs| ensures rs[k].i != rs[m].i {
      if rs[k].i == rs[m].i {
        RepeatedTwice(rs, k, m);
        IndexedOnce(tracks, rs[k].i);
      }
    }
  }

  /** An ascending sort by the 'num' column reproduces the input order. */
  lemma NumAscendingKeepsOrder(tracks: seq<Track>, dir: int, tags: Option<map<string, string>>,
                               collate: (string, string) -> int)
    requires dir > 0
    ensures SortedTracks(tracks, Some("num"), dir, tags, collate) == tracks
  {
    var cmp := Comparator("num", dir, tags, collate);
    var input := Indexed(tracks);
    forall i, j | 0 <= i < j < |input| ensures cmp(input[i], input[j]) <= 0 {
      assert cmp(input[i], input[j]) == dir * (i - j);
      ProductSign(dir, i - j);
    }
    SortOfSorted(cmp, input);
    assert TracksOf(input) == tracks;
  }

  lemma ProductSign(a: int, b: int)
    requires a != 0 && b < 0
    ensures a > 0 ==> a * b < 0
    ensures a < 0 ==> a * b > 0
  {
  }

  /** A descending sort by the 'num' column reverses the input. */
  lemma NumDescendingReverses(tracks: seq<Track>, dir: int, tags: Option<map<string, string>>,
                              collate: (string, string) -> int)
    requires dir < 0
    ensures SortedTracks(tracks, Some("num"), dir, tags, collate) == Reverse(tracks)
  {
    var cmp := Comparator("num", dir, tags, collate);
    var input := Indexed(tracks);
    forall i, j | 0 <= i < j < |input| ensures cmp(input[i], input[j]) > 0 {
      assert cmp(input[i], input[j]) == dir * (i - j);
      ProductSign(dir, i - j);
    }
    SortOfDecreasing(cmp, input);
    assert TracksOf(Reverse(input)) == Reverse(tracks);
  }

  /** A column the comparator does not know compares everything equal, so the order is kept. */
  lemma UnknownColumnKeepsOrder(tracks: seq<Track>, column: string, dir: int,
                                tags: Option<map<string, string>>, collate: (string, string) -> int)
    requires !KnownColumn(column)
    ensures SortedTracks(tracks, Some(column), dir, tags, collate) == tracks
  {
    var cmp := Comparator(column, dir, tags, collate);
    var input := Indexed(tracks);
    forall i, j | 0 <= i < j < |input| ensures cmp(input[i], input[j]) <= 0 {
      assert cmp(input[i], input[j]) == 0;
    }
    SortOfSorted(cmp, input);
    assert TracksOf(input) == tracks;
  }

  /** Every pair of the sorted output is in comparator order. */
  lemma SortedTracksInOrder(tracks: seq<Track>, column: string, dir: int,
                            tags: Option<map<string, string>>, collate: (string, string) -> int)
    requires TextColumn(column) ==> IsComparator(collate)
    ensures var rs := SortedRanked(tracks, column, dir, tags, collate);
      forall i, j :: 0 <= i < j < |rs| ==> Compare(column, dir, tags, collate, rs[i], rs[j]) <= 0
  {
    CompareIsComparator(column, dir, tags, collate);
    SortSorted(Comparator(column, dir, tags, collate), Indexed(tracks));
  }

  /** What it means for the 'tag' order of two ranks not to put the first after the second. */
  lemma TagOrderMeaning(dir: int, ra: int, rb: int)
    requires TagOrder(dir, ra, rb) <= 0
    ensures ra == LastRank ==> rb == LastRank
    ensures rb != LastRank ==> dir * (ra - rb) <= 0
  {
  }

  /**
   * Sorting by tag puts every untagged track (rank 7) after every tagged
   * one, in both directions, and orders the tagged ones by rank times
   * direction.
   */
  lemma TagSortUntaggedLast(tracks: seq<Track>, dir: int, tags: Option<map<string, string>>,
                            collate: (string, string) -> int)
    requires dir != 0
    ensures var r := SortedTracks(tracks, Some("tag"), dir, tags, collate);
      && (forall i, j :: 0 <= i < j < |r| && TrackRank(tags, r[i]) == LastRank ==> TrackRank(tags, r[j]) == LastRank)
      && (forall i, j :: 0 <= i < j < |r| && TrackRank(tags, r[j]) < LastRank ==>
            dir * (TrackRank(tags, r[i]) - TrackRank(tags, r[j])) <= 0)
  {
    var rs := SortedRanked(tracks, "tag", dir, tags, collate);
    SortedTracksInOrder(tracks, "tag", dir, tags, collate);
    var r := TracksOf(rs);
    assert r == SortedTracks(tracks, Some("tag"), dir, tags, collate);
    forall i, j | 0 <= i < j < |r| ensures
      && (TrackRank(tags, r[i]) == LastRank ==> TrackRank(tags, r[j]) == LastRank)
      && (TrackRank(tags, r[j]) < LastRank ==> dir * (TrackRank(tags, r[i]) - TrackRank(tags, r[j])) <= 0)
    {
      var ra, rb := TrackRank(tags, r[i]), TrackRank(tags, r[j]);
      assert Compare("tag", dir, tags, collate, rs[i], rs[j]) == TagOrder(dir, ra, rb) <= 0;
      TagOrderMeaning(dir, ra, rb);
    }
  }

  /** Sorting by bpm orders the tracks by direction times bpm, a missing bpm counting as 0. */
  lemma BpmSortOrdered(tracks: seq<Track>, dir: int, tags: Option<map<string, string>>,
                       collate: (string, string) -> int)
    requires dir != 0
    ensures var r := SortedTracks(tracks, Some("bpm"), dir, tags, collate);
      forall i, j :: 0 <= i < j < |r| ==> dir * (NumberOr(r[i].bpm) - NumberOr(r[j].bpm)) <= 0
  {
    var rs := SortedRanked(tracks, "bpm", dir, tags, collate);
    SortedTracksInOrder(tracks, "bpm", dir, tags, collate);
    var r := TracksOf(rs);
    assert r == SortedTracks(tracks, Some("bpm"), dir, tags, collate);
    forall i, j | 0 <= i < j < |r| ensures dir * (NumberOr(r[i].bpm) - NumberOr(r[j].bpm)) <= 0 {
      assert Compare("bpm", dir, tags, collate, rs[i], rs[j]) <= 0;
    }
  }

  /** Sorting by time orders the tracks by direction times duration, a missing duration counting as 0. */
  lemma TimeSortOrdered(tracks: seq<Track>, dir: int, tags: Option<map<string, string>>,
                        collate: (string, string) -> int)
    requires dir != 0
    ensures var r := SortedTracks(tracks, Some("time"), dir, tags, collate);
      forall i, j :: 0 <= i < j < |r| ==> dir * (NumberOr(r[i].totalTime) - NumberOr(r[j].totalTime)) <= 0
  {
    var rs := SortedRanked(tracks, "time", dir, tags, collate);
    SortedTracksInOrder(tracks, "time", dir, tags, collate);
    var r := TracksOf(rs);
    assert r == SortedTracks(tracks, Some("time"), dir, tags, collate);
    forall i, j | 0 <= i < j < |r| ensures dir * (NumberOr(r[i].totalTime) - NumberOr(r[j].totalTime)) <= 0 {
      assert Compare("time", dir, tags, collate, rs[i], rs[j]) <= 0;
    }
  }

  /** Sorting by title orders the tracks by direction times `localeCompare` of their names. */
  lemma TitleSortOrdered(tracks: seq<Track>, dir: int, tags: Option<map<string, string>>,
                         collate: (string, string) -> int)
    requires dir != 0 && IsComparator(collate)
    ensures var r := SortedTracks(tracks, Some("title"), dir, tags, collate);
      forall i, j :: 0 <= i < j < |r| ==> dir * collate(TextOr(r[i].name), TextOr(r[j].name)) <= 0
  {
    var rs := SortedRanked(tracks, "title", dir, tags, collate);
    SortedTracksInOrder(tracks, "title", dir, tags, collate);
    var r := TracksOf(rs);
    assert r == SortedTracks(tracks, Some("title"), dir, tags, collate);
    forall i, j | 0 <= i < j < |r| ensures dir * collate(TextOr(r[i].name), TextOr(r[j].name)) <= 0 {
      assert Compare("title", dir, tags, collate, rs[i], rs[j]) <= 0;
    }
  }

  /**
   * The sort is stable: two tracks the comparator ties (every pair, for an
   * unknown column) come out in their input order.
   */
  lemma SortStableTies(tracks: seq<Track>, column: string, dir: int,
                       tags: Option<map<string, string>>, collate: (string, string) -> int)
    requires TextColumn(column) ==> IsComparator(collate)
    ensures var rs := SortedRanked(tracks, column, dir, tags, collate);
      forall i, j :: 0 <= i < j < |rs| && Compare(column, dir, tags, collate, rs[i], rs[j]) == 0 ==> rs[i].i < rs[j].i
  {
    var cmp := Comparator(column, dir, tags, collate);
    var pos := (r: Ranked) => r.i;
    CompareIsComparator(column, dir, tags, collate);
    SortStable(cmp, pos, Indexed(tracks));
    var rs := SortedRanked(tracks, column, dir, tags, collate);
    forall i, j | 0 <= i < j < |rs| && Compare(column, dir, tags, collate, rs[i], rs[j]) == 0 ensures rs[i].i < rs[j].i {
      assert cmp(rs[i], rs[j]) == 0;
      assert pos(rs[i]) < pos(rs[j]);
    }
  }
}
