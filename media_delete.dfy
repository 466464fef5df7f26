/**
 * Deleting a batch of media items (`useDeleteMediaMutation` in
 * apps/web/src/components/Images/Images.queries.ts): the batch is split by
 * the `supabase_hosted` flag, bucket objects are removed with one storage
 * call, and the externally hosted ones with one call to the blog's image API,
 * by file name.
 *
 * The two backend calls are recorded, in the order they are issued, in a
 * trace; what each backend answers is a parameter.
 */
module MediaDelete {
  import opened Wrappers
  import opened Text

  /** One item of the batch handed to the mutation. */
  datatype DeleteRequestItem = DeleteRequestItem(path: string, supabaseHosted: Option<bool>, blogId: string)

  /** A call issued to a backend. */
  datatype BackendCall =
    | RemoveFromBucket(paths: seq<string>)
    | DeleteViaApi(blogId: string, fileNames: seq<string>)

  /** How the mutation settles: its success message, or the message of the error it throws. */
  datatype DeleteOutcome = Deleted(message: string) | Rejected(message: string)

  const BlogIdRequired := "Blog ID is required"
  const DeleteFailed := "Failed to delete image"
  const DeletedMessage := "Successfully deleted images"

  /** `item.supabase_hosted` is truthy: the object lives in the bucket. */
  predicate BucketHosted(item: DeleteRequestItem) {
    item.supabaseHosted == Some(true)
  }

  // ---------------------------------------------------------------------------
  // partition
  // ---------------------------------------------------------------------------

  /** `items.filter(item => item.supabase_hosted)`. */
  function BucketItems(items: seq<DeleteRequestItem>): (r: seq<DeleteRequestItem>)
    ensures |r| <= |items|
    ensures forall x :: x in r ==> x in items && BucketHosted(x)
    decreases |items|
  {
    if items == [] then []
    else (if BucketHosted(items[0]) then [items[0]] else []) + BucketItems(items[1..])
  }

  /** `items.filter(item => !item.supabase_hosted)`. */
  function ExternalItems(items: seq<DeleteRequestItem>): (r: seq<DeleteRequestItem>)
    ensures |r| <= |items|
    ensures forall x :: x in r ==> x in items && !BucketHosted(x)
    decreases |items|
  {
    if items == [] then []
    else (if BucketHosted(items[0]) then [] else [items[0]]) + ExternalItems(items[1..])
  }

  /** The paths handed to the bucket's `remove`. */
  function BucketPaths(items: seq<DeleteRequestItem>): (r: seq<string>)
    ensures |r| == |BucketItems(items)|
    ensures forall i :: 0 <= i < |r| ==> r[i] == BucketItems(items)[i].path
  {
    var hosted := BucketItems(items);
    seq(|hosted|, i requires 0 <= i < |hosted| => hosted[i].path)
  }

  /** Every item lands in exactly one of the two batches. */
  lemma {:induction false} PartitionIsExact(items: seq<DeleteRequestItem>)
    ensures multiset(items) == multiset(BucketItems(items)) + multiset(ExternalItems(items))
    decreases |items|
  {
    if items != [] {
      var rest := items[1..];
      PartitionIsExact(rest);
      PartitionHead(items);
      MultisetCons(items);
    }
  }

  lemma MultisetCons(items: seq<DeleteRequestItem>)
    requires items != []
    ensures multiset(items) == multiset([items[0]]) + multiset(items[1..])
  {
    assert items == [items[0]] + items[1..];
  }

  /** The first item goes to exactly one batch; the rest are split recursively. */
  lemma PartitionHead(items: seq<DeleteRequestItem>)
    requires items != []
    ensures multiset(BucketItems(items)) + multiset(ExternalItems(items)) ==
            multiset([items[0]]) + (multiset(BucketItems(items[1..])) + multiset(ExternalItems(items[1..])))
  {
    var x, rest := items[0], items[1..];
    if BucketHosted(x) {
      assert BucketItems(items) == [x] + BucketItems(rest);
      assert ExternalItems(items) == ExternalItems(rest);
    } else {
      assert BucketItems(items) == BucketItems(rest);
      assert ExternalItems(items) == [x] + ExternalItems(rest);
    }
  }

  /**
   * Both batches keep the input order: splitting a concatenation splits each
   * part, so each batch lists its items in the order they were given.
   */
  lemma PartitionKeepsOrder(a: seq<DeleteRequestItem>, b: seq<DeleteRequestItem>)
    ensures BucketItems(a + b) == BucketItems(a) + BucketItems(b)
    ensures ExternalItems(a + b) == ExternalItems(a) + ExternalItems(b)
  {
    BucketItemsAppend(a, b);
    ExternalItemsAppend(a, b);
  }

  lemma {:induction false} BucketItemsAppend(a: seq<DeleteRequestItem>, b: seq<DeleteRequestItem>)
    ensures BucketItems(a + b) == BucketItems(a) + BucketItems(b)
    decreases |a|
  {
    if a == [] {
      assert a + b == b;
    } else {
      var head := if BucketHosted(a[0]) then [a[0]] else [];
      assert (a + b)[0] == a[0] && (a + b)[1..] == a[1..] + b;
      BucketItemsAppend(a[1..], b);
      Reassociate(head, BucketItems(a[1..]), BucketItems(b));
    }
  }

  lemma {:induction false} ExternalItemsAppend(a: seq<DeleteRequestItem>, b: seq<DeleteRequestItem>)
    ensures ExternalItems(a + b) == ExternalItems(a) + ExternalItems(b)
    decreases |a|
  {
    if a == [] {
      assert a + b == b;
    } else {
      var head := if BucketHosted(a[0]) then [] else [a[0]];
      assert (a + b)[0] == a[0] && (a + b)[1..] == a[1..] + b;
      ExternalItemsAppend(a[1..], b);
      Reassociate(head, ExternalItems(a[1..]), ExternalItems(b));
    }
  }

  lemma Reassociate(head: seq<DeleteRequestItem>, x: seq<DeleteRequestItem>, y: seq<DeleteRequestItem>)
    ensures head + (x + y) == (head + x) + y
  {
  }

  // ---------------------------------------------------------------------------
  // blog id and file names
  // ---------------------------------------------------------------------------

  /** `items[0]?.blog_id`, when it is truthy. */
  function BatchBlogId(items: seq<DeleteRequestItem>): (r: Option<string>)
    ensures r.Some? <==> |items| > 0 && items[0].blogId != ""
    ensures r.Some? ==> r.value == items[0].blogId
  {
    if |items| > 0 && items[0].blogId != "" then Some(items[0].blogId) else None
  }

  /** `path.split("/").pop()`. */
  function FileName(path: string): string {
    Last(Split(path, '/'))
  }

  /**
   * The file name is the text after the last `/`: it holds no `/`, it ends the
   * path, and whatever precedes it in the path ends in `/`.
   */
  lemma FileNameIsLastSegment(path: string)
    ensures var name := FileName(path);
      && '/' !in name
      && |name| <= |path| && path[|path| - |name|..] == name
      && (|name| < |path| ==> path[|path| - |name| - 1] == '/')
  {
    LastPieceIsTail(path, '/');
  }

  /** The file name is empty exactly when the path is empty or ends in `/`. */
  lemma FileNameEmpty(path: string)
    ensures FileName(path) == "" <==> path == "" || path[|path| - 1] == '/'
  {
    LastPieceIsTail(path, '/');
    var name := FileName(path);
    if name != "" && path != "" {
      assert path[|path| - 1] == name[|name| - 1];
    }
  }

  /** The external item can be deleted by name: its own blog id and its file name are non-empty. */
  predicate Nameable(item: DeleteRequestItem) {
    item.blogId != "" && FileName(item.path) != ""
  }

  predicate AllNameable(external: seq<DeleteRequestItem>) {
    forall i :: 0 <= i < |external| ==> Nameable(external[i])
  }

  /** The file names of the external items, one per item, in order. */
  function FileNames(external: seq<DeleteRequestItem>): (r: seq<string>)
    ensures |r| == |external|
  {
    seq(|external|, i requires 0 <= i < |external| => FileName(external[i].path))
  }

  /**
   * The loop that collects `r2FileNames`: every external item must be
   * nameable, and the first one that is not aborts with "Blog ID is required".
   */
  method CollectFileNames(external: seq<DeleteRequestItem>) returns (r: Result<seq<string>, string>)
    ensures r.Success? <==> AllNameable(external)
    ensures r.Success? ==> |r.value| == |external| &&
                           forall i :: 0 <= i < |external| ==> r.value[i] == FileName(external[i].path) != ""
    ensures r.Failure? ==> r.error == BlogIdRequired
  {
    var names: seq<string> := [];
    for i := 0 to |external|
      invariant |names| == i
      invariant forall k :: 0 <= k < i ==> Nameable(external[k]) && names[k] == FileName(external[k].path)
    {
      var fileName := Last(Split(external[i].path, '/'));
      if external[i].blogId == "" || fileName == "" {
        return Failure(BlogIdRequired);
      }
      names := names + [fileName];
    }
    return Success(names);
  }

  // ---------------------------------------------------------------------------
  // the mutation
  // ---------------------------------------------------------------------------

  /** The bucket call the mutation issues first, if any. */
  function BucketCalls(items: seq<DeleteRequestItem>): seq<BackendCall> {
    if BucketPaths(items) == [] then [] else [RemoveFromBucket(BucketPaths(items))]
  }

  /**
   * The mutation. `bucketError` is the error message the bucket's `remove`
   * reports (if it is called), `apiStatus` the HTTP status the image API
   * answers (if it is called).
   */
  method DeleteMedia(items: seq<DeleteRequestItem>, bucketError: Option<string>, apiStatus: int)
    returns (outcome: DeleteOutcome, calls: seq<BackendCall>)
    // no blog id: nothing is called
    ensures BatchBlogId(items).None? ==> outcome == Rejected(BlogIdRequired) && calls == []
    // the bucket's error aborts before any file name is derived
    ensures BatchBlogId(items).Some? && BucketPaths(items) != [] && bucketError.Some? ==>
              outcome == Rejected(bucketError.value) && calls == BucketCalls(items)
    // an unnameable external item aborts before the API is called
    ensures BatchBlogId(items).Some? && (BucketPaths(items) == [] || bucketError.None?) &&
            !AllNameable(ExternalItems(items)) ==>
              outcome == Rejected(BlogIdRequired) && calls == BucketCalls(items)
    // otherwise the API is called once, scoped to the first item's blog id, even with no names
    ensures BatchBlogId(items).Some? && (BucketPaths(items) == [] || bucketError.None?) &&
            AllNameable(ExternalItems(items)) ==>
              && calls == BucketCalls(items) + [DeleteViaApi(items[0].blogId, FileNames(ExternalItems(items)))]
              && outcome == (if apiStatus == 200 then Deleted(DeletedMessage) else Rejected(DeleteFailed))
  {
    calls := [];
    var bucketPaths := BucketPaths(items);
    var blogId := BatchBlogId(items);
    if blogId.None? {
      return Rejected(BlogIdRequired), calls;
    }
    var external := ExternalItems(items);
    if |bucketPaths| > 0 {
      calls := calls + [RemoveFromBucket(bucketPaths)];
      if bucketError.Some? {
        return Rejected(bucketError.value), calls;
      }
    }
    var fileNames := CollectFileNames(external);
    if fileNames.Failure? {
      return Rejected(fileNames.error), calls;
    }
    assert fileNames.value == FileNames(external);
    calls := calls + [DeleteViaApi(blogId.value, fileNames.value)];
    if apiStatus != 200 {
      return Rejected(DeleteFailed), calls;
    }
    return Deleted(DeletedMessage), calls;
  }

  /** Each item of the batch is handled by exactly the backend its flag names. */
  lemma RoutedByFlag(items: seq<DeleteRequestItem>, x: DeleteRequestItem)
    requires x in items
    ensures BucketHosted(x) ==> x in BucketItems(items) && x !in ExternalItems(items)
    ensures !BucketHosted(x) ==> x in ExternalItems(items) && x !in BucketItems(items)
  {
    PartitionIsExact(items);
    assert x in multiset(items);
  }
}
