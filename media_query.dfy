/**
 * The media list of one blog (`useMediaQuery` in
 * apps/web/src/components/Images/Images.queries.ts): objects listed from the
 * `images` storage bucket and rows of the `blog_images` table, normalised into
 * one record shape, bucket objects first, then sorted newest first by their
 * `created_at` text.
 *
 * The two backend reads and `getPublicUrl` are foreign calls: their answers
 * are parameters here.
 */
module MediaQuery {
  import opened Wrappers
  import opened Text

  /** An object of the `images` bucket, as the storage listing reports it. */
  datatype BucketObject = BucketObject(id: string, name: string, createdAt: string)

  /** A row of the `blog_images` table: an image hosted outside the bucket. */
  datatype ImageRow = ImageRow(
    id: int,
    fileUrl: Option<string>,
    fileName: string,
    createdAt: string,
    sizeInBytes: Option<int>)

  /** The one record shape the media list shows; `supabaseHosted` is absent on table rows. */
  datatype MediaItem = MediaItem(
    id: string,
    url: Option<string>,
    name: string,
    createdAt: string,
    sizeInBytes: Option<int>,
    supabaseHosted: Option<bool>)

  /** What the storage listing answers: data, an error, or (in principle) neither. */
  datatype Listing = Listing(data: Option<seq<BucketObject>>, error: Option<string>)

  /** What the query function settles with: the list, `undefined`, or a thrown error message. */
  datatype QueryOutcome = Listed(items: seq<MediaItem>) | NoResult | Failed(message: string)

  /** A bucket object, with the public URL of `<blogId>/<name>` and the bucket tag. */
  function FromBucket(blogId: string, o: BucketObject, publicUrl: string -> string): MediaItem {
    MediaItem(o.id, Some(publicUrl(blogId + "/" + o.name)), o.name, o.createdAt, None, Some(true))
  }

  /** A table row, renamed into the common shape, its numeric id stringified. */
  function FromRow(row: ImageRow): MediaItem {
    MediaItem(IntToString(row.id), row.fileUrl, row.fileName, row.createdAt, row.sizeInBytes, None)
  }

  /** The table rows, a missing answer counting as none. */
  function RowsOrEmpty(rows: Option<seq<ImageRow>>): seq<ImageRow> {
    rows.GetOr([])
  }

  /**
   * The unsorted list: every bucket object, then every table row, each
   * normalised as stated.
   */
  function Merge(blogId: string, objects: seq<BucketObject>, rows: Option<seq<ImageRow>>,
                 publicUrl: string -> string): (r: seq<MediaItem>)
    ensures |r| == |objects| + |RowsOrEmpty(rows)|
    ensures forall i :: 0 <= i < |objects| ==>
              && r[i].supabaseHosted == Some(true)
              && r[i].url == Some(publicUrl(blogId + "/" + objects[i].name))
              && r[i].id == objects[i].id
              && r[i].name == objects[i].name
              && r[i].createdAt == objects[i].createdAt
              && r[i].sizeInBytes == None
    ensures forall j :: |objects| <= j < |r| ==>
              var row := RowsOrEmpty(rows)[j - |objects|];
              && r[j].supabaseHosted == None
              && r[j].url == row.fileUrl
              && r[j].name == row.fileName
              && ParseInt(r[j].id) == Some(row.id)
              && r[j].createdAt == row.createdAt
              && r[j].sizeInBytes == row.sizeInBytes
  {
    var rs := RowsOrEmpty(rows);
    var bucket := seq(|objects|, i requires 0 <= i < |objects| => FromBucket(blogId, objects[i], publicUrl));
    var table := seq(|rs|, j requires 0 <= j < |rs| => FromRow(rs[j]));
    var r := bucket + table;
    assert forall j :: |objects| <= j < |r| ==> r[j] == FromRow(rs[j - |objects|]);
    forall j | 0 <= j < |rs| ensures ParseInt(IntToString(rs[j].id)) == Some(rs[j].id) {
      IntRoundTrip(rs[j].id);
    }
    r
  }

  // ---------------------------------------------------------------------------
  // sorting newest first
  // ---------------------------------------------------------------------------

  /**
   * `x` may stand before `y` in the sorted list: the comparator
   * `(a, b) => a.created_at < b.created_at ? 1 : -1` does not answer 1.
   */
  predicate MayPrecede(x: MediaItem, y: MediaItem) {
    !Less(x.createdAt, y.createdAt)
  }

  /** Newest first: no item is followed by one with a larger `created_at`. */
  predicate NewestFirst(s: seq<MediaItem>) {
    forall p, q :: 0 <= p < q < |s| ==> MayPrecede(s[p], s[q])
  }

  /** No two different items share a `created_at` text. */
  predicate DistinctTimestamps(s: seq<MediaItem>) {
    forall x, y :: x in s && y in s && x.createdAt == y.createdAt ==> x == y
  }

  lemma MayPrecedeTransitive(x: MediaItem, y: MediaItem, z: MediaItem)
    requires MayPrecede(x, y) && MayPrecede(y, z)
    ensures MayPrecede(x, z)
  {
    if Less(x.createdAt, z.createdAt) {
      if x.createdAt != y.createdAt { LessTotal(x.createdAt, y.createdAt); }
      if y.createdAt != z.createdAt { LessTotal(y.createdAt, z.createdAt); }
      if Less(y.createdAt, x.createdAt) && Less(z.createdAt, y.createdAt) {
        LessTransitive(z.createdAt, y.createdAt, x.createdAt);
        LessAsymmetric(x.createdAt, z.createdAt);
      }
    }
  }

  /** Exchanges the item at `j` with the one before it. */
  method SwapWithPrevious(a: array<MediaItem>, j: int)
    requires 0 < j < a.Length
    modifies a
    ensures a[..] == old(a[..])[j - 1 := old(a[j])][j := old(a[j - 1])]
    ensures multiset(a[..]) == multiset(old(a[..]))
  {
    a[j - 1], a[j] := a[j], a[j - 1];
  }

  /**
   * One step of the sort: with `a[..i]` already newest first, moves `a[i]`
   * left past every item older than it.
   */
  method InsertNewest(a: array<MediaItem>, i: int)
    requires 0 <= i < a.Length
    requires NewestFirst(a[..i])
    modifies a
    ensures NewestFirst(a[..i + 1])
    ensures a[i + 1..] == old(a[i + 1..])
    ensures multiset(a[..]) == multiset(old(a[..]))
  {
    var j := i;
    while j > 0 && Less(a[j - 1].createdAt, a[j].createdAt)
      invariant 0 <= j <= i
      invariant a[i + 1..] == old(a[i + 1..])
      invariant multiset(a[..]) == multiset(old(a[..]))
      invariant forall p, q :: 0 <= p < q <= i && p != j && q != j ==> MayPrecede(a[p], a[q])
      invariant forall q :: j < q <= i ==> MayPrecede(a[j], a[q])
    {
      LessAsymmetric(a[j - 1].createdAt, a[j].createdAt);
      SwapWithPrevious(a, j);
      j := j - 1;
    }
    forall p | 0 <= p < j - 1
      ensures MayPrecede(a[p], a[j])
    {
      MayPrecedeTransitive(a[p], a[j - 1], a[j]);
    }
  }

  /**
   * `allImages.sort(...)` on the merged array, in place. The runtime's own
   * algorithm is unspecified; this one is an insertion sort by adjacent swaps.
   */
  method SortNewestFirst(a: array<MediaItem>)
    modifies a
    ensures NewestFirst(a[..])
    ensures multiset(a[..]) == multiset(old(a[..]))
  {
    var i := 0;
    while i < a.Length
      invariant 0 <= i <= a.Length
      invariant NewestFirst(a[..i])
      invariant multiset(a[..]) == multiset(old(a[..]))
    {
      InsertNewest(a, i);
      i := i + 1;
    }
    assert a[..a.Length] == a[..];
  }

  /**
   * With distinct timestamps there is only one newest-first arrangement of a
   * list, so every correct sort returns the same list.
   */
  lemma {:induction false} NewestFirstUnique(a: seq<MediaItem>, b: seq<MediaItem>)
    requires NewestFirst(a) && NewestFirst(b)
    requires multiset(a) == multiset(b)
    requires DistinctTimestamps(a)
    ensures a == b
    decreases |a|
  {
    assert |a| == |multiset(a)| == |multiset(b)| == |b|;
    if a != [] {
      NewestHeadsAgree(a, b);
      TailsPermuted(a, b);
      TailKeepsOrder(a);
      TailKeepsOrder(b);
      TailKeepsDistinct(a);
      NewestFirstUnique(a[1..], b[1..]);
      assert a == [a[0]] + a[1..] && b == [b[0]] + b[1..];
    }
  }

  lemma TailKeepsOrder(a: seq<MediaItem>)
    requires a != [] && NewestFirst(a)
    ensures NewestFirst(a[1..])
  {
    var t := a[1..];
    forall p, q | 0 <= p < q < |t| ensures MayPrecede(t[p], t[q]) {
      assert t[p] == a[p + 1] && t[q] == a[q + 1];
    }
  }

  lemma TailKeepsDistinct(a: seq<MediaItem>)
    requires a != [] && DistinctTimestamps(a)
    ensures DistinctTimestamps(a[1..])
  {
    var t := a[1..];
    forall x, y | x in t && y in t && x.createdAt == y.createdAt ensures x == y {
      assert x in a && y in a;
    }
  }

  /** Two newest-first permutations of a list with distinct timestamps start alike. */
  lemma NewestHeadsAgree(a: seq<MediaItem>, b: seq<MediaItem>)
    requires NewestFirst(a) && NewestFirst(b)
    requires multiset(a) == multiset(b)
    requires DistinctTimestamps(a)
    requires a != [] && b != []
    ensures a[0] == b[0]
  {
    assert a[0] in multiset(b) && b[0] in multiset(a);
    var j :| 0 <= j < |b| && b[j] == a[0];
    var i :| 0 <= i < |a| && a[i] == b[0];
    if a[0] != b[0] {
      assert MayPrecede(a[0], a[i]) && MayPrecede(b[0], b[j]);
      if a[0].createdAt != b[0].createdAt {
        LessTotal(a[0].createdAt, b[0].createdAt);
      }
      assert false;
    }
  }

  /** Removing the same first element from two permutations leaves permutations. */
  lemma TailsPermuted(a: seq<MediaItem>, b: seq<MediaItem>)
    requires multiset(a) == multiset(b)
    requires a != [] && b != [] && a[0] == b[0]
    ensures multiset(a[1..]) == multiset(b[1..])
  {
    assert a == [a[0]] + a[1..] && b == [b[0]] + b[1..];
    assert multiset(a[1..]) == multiset(a) - multiset([a[0]]);
    assert multiset(b[1..]) == multiset(b) - multiset([b[0]]);
  }

  /**
   * The query function: when the listing has data, the merged list sorted
   * newest first; otherwise the listing's error is thrown, and with neither
   * the function settles with `undefined`.
   */
  method QueryMedia(blogId: string, rows: Option<seq<ImageRow>>, listing: Listing,
                    publicUrl: string -> string) returns (r: QueryOutcome)
    ensures listing.data.Some? ==>
              && r.Listed?
              && multiset(r.items) == multiset(Merge(blogId, listing.data.value, rows, publicUrl))
              && NewestFirst(r.items)
    ensures listing.data.None? && listing.error.Some? ==> r == Failed(listing.error.value)
    ensures listing.data.None? && listing.error.None? ==> r == NoResult
  {
    if listing.data.Some? {
      var merged := Merge(blogId, listing.data.value, rows, publicUrl);
      var all := new MediaItem[|merged|](i requires 0 <= i < |merged| => merged[i]);
      assert all[..] == merged;
      SortNewestFirst(all);
      return Listed(all[..]);
    }
    if listing.error.Some? {
      return Failed(listing.error.value);
    }
    return NoResult;
  }

  /**
   * With distinct timestamps the query's list is determined: it is the one
   * newest-first arrangement of bucket objects and table rows together.
   */
  lemma QueryResultDetermined(merged: seq<MediaItem>, r1: seq<MediaItem>, r2: seq<MediaItem>)
    requires DistinctTimestamps(merged)
    requires multiset(r1) == multiset(merged) && NewestFirst(r1)
    requires multiset(r2) == multiset(merged) && NewestFirst(r2)
    ensures r1 == r2
  {
    DistinctTimestampsPermuted(merged, r1);
    NewestFirstUnique(r1, r2);
  }

  /** Distinct timestamps survive a permutation. */
  lemma DistinctTimestampsPermuted(s: seq<MediaItem>, t: seq<MediaItem>)
    requires DistinctTimestamps(s) && multiset(s) == multiset(t)
    ensures DistinctTimestamps(t)
  {
    forall x | x in t ensures x in s {
      assert x in multiset(t);
    }
  }
}
