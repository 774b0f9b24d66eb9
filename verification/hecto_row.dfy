/** One line of a hecto document: its grapheme clusters, the cluster count cached at
    construction, and the renderer that slices a line by cluster index for horizontal
    scrolling. Unicode segmentation itself is not modelled: a line is given as the
    sequence of clusters that segmentation would produce, each an opaque, non-empty
    run of UTF-8 bytes. */
module HectoRow {

  newtype byte = b: int | 0 <= b < 256

  /** One user-perceived character: the bytes it occupies in the line's UTF-8 text. */
  type Grapheme = g: seq<byte> | |g| > 0 witness [0]

  /** A line: its clusters in order and `len`, the count stored by `update_len`. */
  datatype Row = Row(clusters: seq<Grapheme>, len: nat)

  function Min(a: nat, b: nat): nat
  {
    if a <= b then a else b
  }

  /** The bytes of a run of clusters, joined in order. Every cluster adds at least one
      byte, so the text is never shorter than the cluster count. */
  function Concat(gs: seq<Grapheme>): (t: seq<byte>)
    ensures |t| >= |gs|
    ensures t == [] <==> gs == []
  {
    if |gs| == 0 then [] else gs[0] + Concat(gs[1..])
  }

  /** The line's UTF-8 text (`self.string`). */
  function Text(row: Row): seq<byte>
  {
    Concat(row.clusters)
  }

  /** `self.string.len()`: the length of the text in bytes. */
  function ByteLen(row: Row): nat
  {
    |Text(row)|
  }

  /** The cached count agrees with the clusters: what `Row::from` establishes. */
  predicate Valid(row: Row)
  {
    row.len == |row.clusters|
  }

  /** `Row::from` followed by `update_len`: keep the text, count its clusters once. */
  function From(clusters: seq<Grapheme>): (row: Row)
    ensures row.clusters == clusters
    ensures Valid(row) && Len(row) == |clusters|
    ensures Len(row) <= ByteLen(row)
  {
    Row(clusters, |clusters|)
  }

  /** `len()`: the cached count, which is the cluster count of a constructed row. */
  function Len(row: Row): (n: nat)
    ensures Valid(row) ==> n == |row.clusters| && n <= ByteLen(row)
  {
    row.len
  }

  /** `is_empty()`: tests the cached count. On a constructed row this agrees with the
      commented-out byte test `self.string.is_empty()`, because every cluster has a byte. */
  predicate IsEmpty(row: Row)
    ensures Valid(row) ==> (IsEmpty(row) <==> Text(row) == [])
  {
    row.len == 0
  }

  /** Iterator `skip(n)`: drop the first `n` items, or all of them. */
  function Skip<T>(s: seq<T>, n: nat): seq<T>
  {
    if n < |s| then s[n..] else []
  }

  /** Iterator `take(n)`: keep the first `n` items, or all there are. */
  function Take<T>(s: seq<T>, n: nat): seq<T>
  {
    if n < |s| then s[..n] else s
  }

  /** The clusters a slice `[start, end)` of the line is meant to show: `end` capped at
      the cluster count, `start` capped at `end`. */
  function Window(clusters: seq<Grapheme>, start: nat, end: nat): (w: seq<Grapheme>)
    ensures start >= end ==> w == []
    ensures start <= end ==> |w| <= end - start
    ensures forall k :: 0 <= k < |w| ==> start + k < |clusters| && w[k] == clusters[start + k]
    ensures start <= |clusters| <= end ==> |w| == |clusters| - start
  {
    var e := Min(end, |clusters|);
    var s := Min(start, e);
    clusters[s..e]
  }

  /** `render(start, end)` as written: `end` is capped at the BYTE length of the text,
      then the cluster iterator is skipped to `start` and taken for `end - start` items.
      Capping at the byte length instead of the cluster count is harmless: the byte
      length is never smaller, and `take` stops where the clusters run out. So a rendered
      slice is exactly the joined clusters of the intended window. */
  function Render(row: Row, start: nat, end: nat): (r: seq<byte>)
    ensures r == Concat(Window(row.clusters, start, end))
  {
    var c := row.clusters;
    var e := Min(end, ByteLen(row));
    var s := Min(start, e);
    assert |c| <= ByteLen(row);
    assert s < |c| ==> Take(Skip(c, s), e - s) == c[s..Min(e, |c|)] && Min(e, |c|) == Min(end, |c|);
    Concat(Take(Skip(c, s), e - s))
  }

  /** A slice that starts at or past its end is empty. */
  lemma RenderEmptyWhenStartNotBeforeEnd(row: Row, start: nat, end: nat)
    requires start >= end
    ensures Render(row, start, end) == []
  {
  }

  /** Rendering from column 0 to at least the line length shows the whole line. */
  lemma RenderWholeRow(row: Row, n: nat)
    requires Valid(row)
    requires n >= Len(row)
    ensures Render(row, 0, n) == Text(row)
  {
    assert Window(row.clusters, 0, n) == row.clusters;
  }

  /** An `end` past the line length behaves as the line length. */
  lemma RenderClampsEnd(row: Row, start: nat, end: nat)
    requires Valid(row)
    requires end >= Len(row)
    ensures Render(row, start, end) == Render(row, start, Len(row))
  {
  }

  /** A rendered slice is whole clusters of the line, consecutive from index `start`,
      at most `end - start` of them: no cluster is ever split. */
  lemma RenderWholeClusters(row: Row, start: nat, end: nat)
    ensures exists w: seq<Grapheme> ::
      && Render(row, start, end) == Concat(w)
      && (start <= end ==> |w| <= end - start)
      && (start >= end ==> w == [])
      && (forall k :: 0 <= k < |w| ==> start + k < |row.clusters| && w[k] == row.clusters[start + k])
  {
    var w := Window(row.clusters, start, end);
    assert Render(row, start, end) == Concat(w);
  }
}
