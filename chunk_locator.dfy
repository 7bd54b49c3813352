/**
 * Chunk locator for the FCI 1 km full-disc grid.
 *
 * The full disc is cut into 40 horizontal strips ("chunks"). A point is
 * mapped to its chunk by turning it into a grid row (an external
 * geolocation service, here the parameter `rowOf`), inverting the row
 * against the grid height and searching a fixed table of strip end rows
 * for the first one not below the inverted row.
 */
module ChunkLocator {

  datatype Option<T> = None | Some(value: T)

  /** A geographic box in degrees, in the order the scripts pass it:
      minimum longitude, minimum latitude, maximum longitude, maximum latitude. */
  datatype BBox = BBox(west: real, south: real, east: real, north: real)

  /** Number of rows of the grid; also the end row of the last chunk. */
  const GridRows: int := 11136

  /** Number of chunks of a full disc. */
  const ChunkCount: int := 40

  /** Each element strictly below its successor. */
  predicate AdjacentAscending(s: seq<int>)
  {
    forall i :: 0 <= i < |s| - 1 ==> s[i] < s[i + 1]
  }

  predicate StrictlyAscending(s: seq<int>)
  {
    forall i, j :: 0 <= i < j < |s| ==> s[i] < s[j]
  }

  lemma {:induction false} AdjacentChain(s: seq<int>, i: int, j: int)
    requires AdjacentAscending(s)
    requires 0 <= i < j < |s|
    ensures s[i] < s[j]
    decreases j - i
  {
    if i + 1 < j {
      AdjacentChain(s, i + 1, j);
    }
  }

  lemma AdjacentAscendingIsStrict(s: seq<int>)
    requires AdjacentAscending(s)
    ensures StrictlyAscending(s)
  {
    forall i, j | 0 <= i < j < |s| ensures s[i] < s[j] {
      AdjacentChain(s, i, j);
    }
  }

  /** End row (in inverted-row coordinates) of each chunk; chunk k ends at
      the k-th entry, counting from 1. */
  function EndPositionRows(): (rows: seq<int>)
    ensures |rows| == ChunkCount
    ensures StrictlyAscending(rows)
    ensures rows[0] == 278 && rows[ChunkCount - 1] == GridRows
  {
    var rows := [278, 556, 835, 1113, 1392, 1670, 1948, 2227, 2505, 2784,
                 3062, 3340, 3619, 3897, 4176, 4454, 4732, 5011, 5289, 5568,
                 5846, 6124, 6403, 6681, 6960, 7258, 7556, 7856, 8133, 8391,
                 8649, 8908, 9187, 9465, 9744, 10022, 10300, 10579, 10857, 11136];
    AdjacentAscendingIsStrict(rows);
    rows
  }

  /** The 1-based position of the first element of `s` that is not below
      `value`, or -1 when every element is below it. */
  function FirstNotBelow(value: int, s: seq<int>): (r: int)
    ensures r == -1 <==> forall i :: 0 <= i < |s| ==> s[i] < value
    ensures r != -1 ==> 1 <= r <= |s| && s[r - 1] >= value
    ensures r != -1 ==> forall i :: 0 <= i < r - 1 ==> s[i] < value
  {
    if s == [] then -1
    else if s[0] >= value then 1
    else
      var k := FirstNotBelow(value, s[1..]);
      assert forall i :: 1 <= i < |s| ==> s[i] == s[1..][i - 1];
      if k == -1 then -1 else k + 1
  }

  /** Linear search with early return over the threshold list. */
  method FirstIndexBiggerThan(value: int, sortedList: seq<int>) returns (index: int)
    ensures index == FirstNotBelow(value, sortedList)
    ensures index == -1 <==> forall i :: 0 <= i < |sortedList| ==> sortedList[i] < value
  {
    for i := 0 to |sortedList|
      invariant forall k :: 0 <= k < i ==> sortedList[k] < value
    {
      if sortedList[i] >= value {
        return i + 1;
      }
    }
    return -1;
  }

  /** As the searched value grows, the position found never moves back;
      once the search fails for a value it fails for every larger one. */
  lemma FirstNotBelowMonotone(s: seq<int>, v1: int, v2: int)
    requires v1 <= v2
    ensures FirstNotBelow(v2, s) != -1 ==> 1 <= FirstNotBelow(v1, s) <= FirstNotBelow(v2, s)
    ensures FirstNotBelow(v1, s) == -1 ==> FirstNotBelow(v2, s) == -1
  {
  }

  /** In a strictly ascending list a value equal to an element is found at
      that element itself, not at the next one. */
  lemma ThresholdFoundAtItself(s: seq<int>, k: int)
    requires StrictlyAscending(s)
    requires 0 <= k < |s|
    ensures FirstNotBelow(s[k], s) == k + 1
  {
  }

  /** On the chunk table the search fails exactly for values past the last
      end row. */
  lemma {:induction false} TableSentinelExactlyBeyondLastRow(value: int)
    ensures FirstNotBelow(value, EndPositionRows()) == -1 <==> value > GridRows
  {
    var rows := EndPositionRows();
    if value > GridRows {
      assert forall i :: 0 <= i < |rows| ==> rows[i] < value by {
        forall i | 0 <= i < |rows| ensures rows[i] < value {
          if i < |rows| - 1 {
            assert rows[i] < rows[|rows| - 1];
          }
        }
      }
    } else {
      assert rows[|rows| - 1] >= value;
    }
  }

  /** Every value up to the first end row, negative values included, falls
      in chunk 1. */
  lemma TableSmallValuesInFirstChunk(value: int)
    requires value <= EndPositionRows()[0]
    ensures FirstNotBelow(value, EndPositionRows()) == 1
  {
  }

  /** Chunk of a grid row: the search on the inverted row. */
  function ChunkForRow(row: int): (chunk: int)
    ensures chunk == -1 <==> row < 0
    ensures chunk != -1 ==> 1 <= chunk <= ChunkCount
    ensures row >= GridRows - EndPositionRows()[0] ==> chunk == 1
  {
    TableSentinelExactlyBeyondLastRow(GridRows - row);
    FirstNotBelow(GridRows - row, EndPositionRows())
  }

  /** A row sitting exactly on a chunk's end row belongs to that chunk. */
  lemma ChunkForRowAtBoundary(k: int)
    requires 0 <= k < ChunkCount
    ensures ChunkForRow(GridRows - EndPositionRows()[k]) == k + 1
  {
    ThresholdFoundAtItself(EndPositionRows(), k);
  }

  /** Further down the grid (larger row) never means a larger chunk number. */
  lemma ChunkForRowAntitone(row1: int, row2: int)
    requires 0 <= row1 <= row2
    ensures ChunkForRow(row2) <= ChunkForRow(row1)
  {
    FirstNotBelowMonotone(EndPositionRows(), GridRows - row2, GridRows - row1);
  }

  /** Chunk of a geographic point, `rowOf` standing for the geolocation of
      the point in the 1 km full-disc grid: the linear search on the
      inverted row. */
  method ChunkForLonLat(rowOf: (real, real) -> int, lon: real, lat: real) returns (index: int)
    ensures index == ChunkForRow(rowOf(lon, lat))
    ensures index == -1 <==> rowOf(lon, lat) < 0
    ensures index != -1 ==> 1 <= index <= ChunkCount
  {
    var row := rowOf(lon, lat);
    index := FirstIndexBiggerThan(GridRows - row, EndPositionRows());
  }

  /** Grid rows of the four corners, in the order the script evaluates
      them: west-south, west-north, east-south, east-north. */
  function CornerRows(b: BBox, rowOf: (real, real) -> int): seq<int>
  {
    [rowOf(b.west, b.south), rowOf(b.west, b.north), rowOf(b.east, b.south), rowOf(b.east, b.north)]
  }

  /** Chunks of the four corners, in the same order. */
  function CornerChunks(b: BBox, rowOf: (real, real) -> int): (cs: seq<int>)
    ensures |cs| == 4
  {
    var rows := CornerRows(b, rowOf);
    [ChunkForRow(rows[0]), ChunkForRow(rows[1]), ChunkForRow(rows[2]), ChunkForRow(rows[3])]
  }

  /** Each corner chunk is -1 exactly when its corner row is negative,
      and a chunk of 1..40 otherwise. */
  lemma CornerChunkOfRowSign(b: BBox, rowOf: (real, real) -> int, i: int)
    requires 0 <= i < 4
    ensures CornerChunks(b, rowOf)[i] == -1 <==> CornerRows(b, rowOf)[i] < 0
    ensures CornerChunks(b, rowOf)[i] != -1 ==> 1 <= CornerChunks(b, rowOf)[i] <= ChunkCount
  {
    var rows := CornerRows(b, rowOf);
    if i == 0 {
      assert CornerChunks(b, rowOf)[0] == ChunkForRow(rows[0]);
    } else if i == 1 {
      assert CornerChunks(b, rowOf)[1] == ChunkForRow(rows[1]);
    } else if i == 2 {
      assert CornerChunks(b, rowOf)[2] == ChunkForRow(rows[2]);
    } else {
      assert CornerChunks(b, rowOf)[3] == ChunkForRow(rows[3]);
    }
  }

  function SeqMin(s: seq<int>): (m: int)
    requires s != []
    ensures m in s && forall i :: 0 <= i < |s| ==> m <= s[i]
  {
    if |s| == 1 then s[0]
    else
      var m := SeqMin(s[1..]);
      assert forall i :: 1 <= i < |s| ==> s[i] == s[1..][i - 1];
      if s[0] <= m then s[0] else m
  }

  function SeqMax(s: seq<int>): (m: int)
    requires s != []
    ensures m in s && forall i :: 0 <= i < |s| ==> s[i] <= m
  {
    if |s| == 1 then s[0]
    else
      var m := SeqMax(s[1..]);
      assert forall i :: 1 <= i < |s| ==> s[i] == s[1..][i - 1];
      if s[0] >= m then s[0] else m
  }

  /** The integers lo, lo + 1, ..., hi - 1 (empty when hi <= lo). */
  function Range(lo: int, hi: int): (r: seq<int>)
    ensures |r| == if hi <= lo then 0 else hi - lo
    ensures forall i :: 0 <= i < |r| ==> r[i] == lo + i
  {
    if hi <= lo then [] else seq(hi - lo, i => lo + i)
  }

  /** Ascending with consecutive elements one apart. */
  predicate GapFree(s: seq<int>)
  {
    forall i :: 0 <= i < |s| - 1 ==> s[i + 1] == s[i] + 1
  }

  /** The gap-free range from the least to the greatest of some chunk
      numbers: it starts and ends at one of them and holds all of them. */
  function ChunkRange(cs: seq<int>): (chunks: seq<int>)
    requires cs != []
    ensures chunks != [] && GapFree(chunks)
    ensures chunks[0] in cs && chunks[|chunks| - 1] in cs
    ensures forall i :: 0 <= i < |cs| ==> chunks[0] <= cs[i] <= chunks[|chunks| - 1]
    ensures forall i :: 0 <= i < |cs| ==> cs[i] in chunks
  {
    RangeSpansBounds(cs, SeqMin(cs), SeqMax(cs));
    Range(SeqMin(cs), SeqMax(cs) + 1)
  }

  /** The range between the least and greatest element of a list holds
      the whole list and starts and ends at elements of it. */
  lemma RangeSpansBounds(cs: seq<int>, lo: int, hi: int)
    requires lo in cs && hi in cs
    requires forall i :: 0 <= i < |cs| ==> lo <= cs[i] <= hi
    ensures var r := Range(lo, hi + 1);
      && r != [] && GapFree(r)
      && r[0] == lo && r[|r| - 1] == hi
      && (forall i :: 0 <= i < |cs| ==> cs[i] in r)
  {
    var r := Range(lo, hi + 1);
    forall i | 0 <= i < |cs| ensures cs[i] in r {
      assert r[cs[i] - lo] == cs[i];
    }
  }

  /** Bounds that hold for every chunk number given hold for the whole
      range. */
  lemma ChunkRangeWithin(cs: seq<int>, lo: int, hi: int)
    requires cs != []
    requires forall i :: 0 <= i < |cs| ==> lo <= cs[i] <= hi
    ensures forall c :: c in ChunkRange(cs) ==> lo <= c <= hi
  {
    var r := ChunkRange(cs);
    assert lo <= r[0] && r[|r| - 1] <= hi;
    forall c | c in r ensures lo <= c <= hi {
      var i :| 0 <= i < |r| && r[i] == c;
      GapFreeBetweenEnds(r, i);
    }
  }

  /** The sentinel -1 among chunk numbers that are all at least -1 makes
      the range start at -1. */
  lemma ChunkRangeSentinelStart(cs: seq<int>)
    requires -1 in cs
    requires forall i :: 0 <= i < |cs| ==> -1 <= cs[i]
    ensures ChunkRange(cs)[0] == -1
  {
    var r := ChunkRange(cs);
    var i :| 0 <= i < |cs| && cs[i] == -1;
    var k :| 0 <= k < |cs| && cs[k] == r[0];
    assert r[0] <= cs[i];
  }

  /** Chunks for an optional box: the whole disc, chunks 1 to 40, without
      a box; otherwise the range spanned by the four corner chunks. */
  function BBoxChunks(bbox: Option<BBox>, rowOf: (real, real) -> int): (chunks: seq<int>)
    ensures bbox.None? ==> |chunks| == ChunkCount && forall i :: 0 <= i < |chunks| ==> chunks[i] == i + 1
  {
    match bbox
    case None => Range(1, ChunkCount + 1)
    case Some(b) => ChunkRange(CornerChunks(b, rowOf))
  }

  /** A box whose four corner rows are all non-negative gives chunks in
      1..40. */
  lemma BBoxChunksRowsNonNegative(b: BBox, rowOf: (real, real) -> int)
    requires forall i :: 0 <= i < 4 ==> CornerRows(b, rowOf)[i] >= 0
    ensures forall c :: c in BBoxChunks(Some(b), rowOf) ==> 1 <= c <= ChunkCount
  {
    var cs := CornerChunks(b, rowOf);
    forall i | 0 <= i < |cs| ensures 1 <= cs[i] <= ChunkCount {
      CornerChunkOfRowSign(b, rowOf, i);
    }
    ChunkRangeWithin(cs, 1, ChunkCount);
  }

  /** A corner whose row is negative is not rejected: the range then
      starts at the sentinel -1. */
  lemma BBoxChunksSentinelStart(b: BBox, rowOf: (real, real) -> int)
    requires exists i :: 0 <= i < 4 && CornerRows(b, rowOf)[i] < 0
    ensures BBoxChunks(Some(b), rowOf)[0] == -1
  {
    var cs := CornerChunks(b, rowOf);
    var k :| 0 <= k < 4 && CornerRows(b, rowOf)[k] < 0;
    forall i | 0 <= i < |cs| ensures -1 <= cs[i] {
      CornerChunkOfRowSign(b, rowOf, i);
    }
    CornerChunkOfRowSign(b, rowOf, k);
    ChunkRangeSentinelStart(cs);
  }

  /** Whatever the box, the chunk list is strictly ascending and lies
      between the sentinel -1 and 40. */
  lemma BBoxChunksAscending(bbox: Option<BBox>, rowOf: (real, real) -> int)
    ensures StrictlyAscending(BBoxChunks(bbox, rowOf))
    ensures forall j :: 0 <= j < |BBoxChunks(bbox, rowOf)| ==> -1 <= BBoxChunks(bbox, rowOf)[j] <= ChunkCount
  {
    if bbox.Some? {
      var b := bbox.value;
      var cs := CornerChunks(b, rowOf);
      forall i | 0 <= i < |cs| ensures -1 <= cs[i] <= ChunkCount {
        CornerChunkOfRowSign(b, rowOf, i);
      }
      ChunkRangeWithin(cs, -1, ChunkCount);
      var r := ChunkRange(cs);
      forall i, j | 0 <= i < j < |r| ensures r[i] < r[j] {
        GapFreeBetweenEnds(r, i);
        GapFreeBetweenEnds(r, j);
      }
    }
  }

  lemma {:induction false} GapFreeBetweenEnds(s: seq<int>, i: int)
    requires GapFree(s) && 0 <= i < |s|
    ensures s[0] <= s[i] <= s[|s| - 1]
    ensures s[i] == s[0] + i
  {
    if i > 0 {
      GapFreeBetweenEnds(s, i - 1);
    }
    if i < |s| - 1 {
      GapFreeTail(s, i);
    }
  }

  lemma {:induction false} GapFreeTail(s: seq<int>, i: int)
    requires GapFree(s) && 0 <= i < |s|
    ensures s[|s| - 1] == s[i] + (|s| - 1 - i)
    decreases |s| - i
  {
    if i < |s| - 1 {
      GapFreeTail(s, i + 1);
    }
  }

  /** The range depends only on which chunk numbers occur, not on their
      order or repetition. */
  lemma ChunkRangeSameElements(c1: seq<int>, c2: seq<int>)
    requires c1 != [] && c2 != []
    requires forall i :: 0 <= i < |c1| ==> c1[i] in c2
    requires forall i :: 0 <= i < |c2| ==> c2[i] in c1
    ensures ChunkRange(c1) == ChunkRange(c2)
  {
    var k1 :| 0 <= k1 < |c1| && c1[k1] == SeqMin(c1);
    var k2 :| 0 <= k2 < |c2| && c2[k2] == SeqMin(c2);
    var j1 :| 0 <= j1 < |c1| && c1[j1] == SeqMax(c1);
    var j2 :| 0 <= j2 < |c2| && c2[j2] == SeqMax(c2);
    assert SeqMin(c1) == SeqMin(c2) && SeqMax(c1) == SeqMax(c2);
  }

  /** A box given with its corners the other way round (east and north as
      the minimum, west and south as the maximum) yields the same chunks:
      the corner lookups meet the same four points in another order. */
  lemma BBoxChunksCornerOrder(b: BBox, rowOf: (real, real) -> int)
    ensures BBoxChunks(Some(BBox(b.east, b.north, b.west, b.south)), rowOf) == BBoxChunks(Some(b), rowOf)
  {
    var c1 := CornerChunks(BBox(b.east, b.north, b.west, b.south), rowOf);
    var c2 := CornerChunks(b, rowOf);
    assert c1[0] == c2[3] && c1[1] == c2[2] && c1[2] == c2[1] && c1[3] == c2[0];
    ChunkRangeSameElements(c1, c2);
  }

  /** Chunks covering an optional box, built as the script builds them:
      the chunks of the four corners, in the order the script appends
      them, replaced by the range from their minimum to their maximum. */
  method ChunksForBBox(bbox: Option<BBox>, rowOf: (real, real) -> int) returns (chunks: seq<int>)
    ensures chunks == BBoxChunks(bbox, rowOf)
  {
    if bbox.None? {
      chunks := Range(1, ChunkCount + 1);
      return;
    }
    var b := bbox.value;
    var ws := ChunkForLonLat(rowOf, b.west, b.south);
    var wn := ChunkForLonLat(rowOf, b.west, b.north);
    var es := ChunkForLonLat(rowOf, b.east, b.south);
    var en := ChunkForLonLat(rowOf, b.east, b.north);
    chunks := [ws, wn, es, en];
    chunks := Range(SeqMin(chunks), SeqMax(chunks) + 1);
  }
}
