/** The bulletin board's content store: the `post` and `image` tables, the
    queries the templates use, the rows a write creates, and the invariant
    that writes and deletes keep. */
module Store {
  import opened Opt
  import opened Text
  import opened Uploads

  /** A row of the `post` table (its id is the key it is stored under). */
  datatype Post = Post(title: string, content: string, author: string, datePosted: string)

  /** A row of the `image` table: the stored file name, the name it was
      uploaded under, the post it belongs to and its position. */
  datatype Image = Image(filename: string, originalFilename: string, postId: nat, order: nat)

  // ---------------------------------------------------------------------
  // Queries on the image table
  // ---------------------------------------------------------------------

  /** `Image.query.filter_by(post_id=postId)`, in table order. */
  function ImagesOf(images: seq<Image>, postId: nat): (r: seq<Image>)
    ensures |r| <= |images|
    ensures forall k :: 0 <= k < |r| ==> r[k].postId == postId
    ensures forall img :: img in r <==> img in images && img.postId == postId
  {
    if images == [] then []
    else (if images[0].postId == postId then [images[0]] else []) + ImagesOf(images[1..], postId)
  }

  /** The rows that survive deleting post `postId`: those of other posts. */
  function ImagesNotOf(images: seq<Image>, postId: nat): (r: seq<Image>)
    ensures |r| <= |images|
    ensures forall k :: 0 <= k < |r| ==> r[k].postId != postId
    ensures forall img :: img in r <==> img in images && img.postId != postId
  {
    if images == [] then []
    else (if images[0].postId != postId then [images[0]] else []) + ImagesNotOf(images[1..], postId)
  }

  /** `get_image_count`: the number of rows with this post id. */
  function ImageCount(images: seq<Image>, postId: nat): (n: nat)
    ensures n <= |images|
    ensures n == 0 <==> forall k :: 0 <= k < |images| ==> images[k].postId != postId
  {
    if images == [] then 0
    else (if images[0].postId == postId then 1 else 0) + ImageCount(images[1..], postId)
  }

  /** `get_primary_image`: a row of the post with the smallest `order`
      (the earliest such row in table order), or none when the post has no
      image. */
  function PrimaryImage(images: seq<Image>, postId: nat): (r: Option<Image>)
    ensures r.None? <==> forall k :: 0 <= k < |images| ==> images[k].postId != postId
    ensures r.Some? ==> r.value in images && r.value.postId == postId
    ensures r.Some? ==> forall k :: 0 <= k < |images| && images[k].postId == postId ==> r.value.order <= images[k].order
  {
    if images == [] then None
    else
      var rest := PrimaryImage(images[1..], postId);
      if images[0].postId != postId then rest
      else if rest.None? || images[0].order <= rest.value.order then Some(images[0])
      else rest
  }

  /** The file names a sequence of rows refers to. */
  function FilenamesOf(images: seq<Image>): set<string> {
    set img | img in images :: img.filename
  }

  lemma FilenamesOfSnoc(rows: seq<Image>, row: Image)
    ensures FilenamesOf(rows + [row]) == FilenamesOf(rows) + {row.filename}
  {
    assert forall img :: img in rows + [row] <==> img in rows || img == row;
  }

  // ---------------------------------------------------------------------
  // The rows `write_post` creates from an upload list
  // ---------------------------------------------------------------------

  /** The stored name `{timestamp}_{position}_{secure name}`. */
  function StoredFilename(stamp: string, position: nat, safeName: string): string {
    stamp + "_" + NatToDecimal(position) + "_" + safeName
  }

  /** The row for the upload at index `i` of the list; `clock(i)` is the
      timestamp read while handling it and `sanitize` is `secure_filename`. */
  function StoredImage(postId: nat, name: string, i: nat, clock: nat -> string, sanitize: string -> string): (row: Image)
    ensures row.postId == postId && row.order == i + 1 && row.originalFilename == name
    ensures StartsWith(row.filename, clock(i) + "_" + NatToDecimal(i + 1) + "_")
    ensures |sanitize(name)| <= |row.filename| && row.filename[|row.filename| - |sanitize(name)|..] == sanitize(name)
  {
    Image(StoredFilename(clock(i), i + 1, sanitize(name)), name, postId, i + 1)
  }

  /** The rows created for the upload list `names`, in list order: one per
      kept upload, carrying its 1-based index in the whole list. */
  function Uploaded(postId: nat, names: seq<string>, clock: nat -> string, sanitize: string -> string): (rows: seq<Image>)
    ensures |rows| <= |names|
    decreases |names|
  {
    if names == [] then []
    else
      var i := |names| - 1;
      Uploaded(postId, names[..i], clock, sanitize)
        + (if Kept(names[i]) then [StoredImage(postId, names[i], i, clock, sanitize)] else [])
  }

  /** `row` is the row created for a kept upload of `names`: its `order`
      is the upload's 1-based index in the list, its original name is the
      upload's name, and its stored name is the timestamp, that index and
      the sanitised name. */
  predicate FromUpload(row: Image, postId: nat, names: seq<string>, clock: nat -> string, sanitize: string -> string) {
    && 1 <= row.order <= |names|
    && Kept(names[row.order - 1])
    && row == StoredImage(postId, names[row.order - 1], row.order - 1, clock, sanitize)
  }

  lemma FromUploadExtends(row: Image, postId: nat, names: seq<string>, n: nat, clock: nat -> string, sanitize: string -> string)
    requires n <= |names|
    requires FromUpload(row, postId, names[..n], clock, sanitize)
    ensures FromUpload(row, postId, names, clock, sanitize) && row.order <= n
  {
    assert names[..n][row.order - 1] == names[row.order - 1];
  }

  /** Every created row comes from a kept upload of the list (so a skipped
      upload never gives a row), and belongs to the new post. */
  lemma {:induction false} UploadedRows(postId: nat, names: seq<string>, clock: nat -> string, sanitize: string -> string)
    ensures forall row :: row in Uploaded(postId, names, clock, sanitize) ==>
      row.postId == postId && FromUpload(row, postId, names, clock, sanitize)
    decreases |names|
  {
    if names != [] {
      var n := |names| - 1;
      var prefix := Uploaded(postId, names[..n], clock, sanitize);
      var tail := if Kept(names[n]) then [StoredImage(postId, names[n], n, clock, sanitize)] else [];
      assert Uploaded(postId, names, clock, sanitize) == prefix + tail;
      UploadedRows(postId, names[..n], clock, sanitize);
      forall row: Image | row in prefix + tail
        ensures row.postId == postId && FromUpload(row, postId, names, clock, sanitize)
      {
        if row in prefix {
          FromUploadExtends(row, postId, names, n, clock, sanitize);
        }
      }
    }
  }

  /** One more upload at the end of the list adds at most its own row. */
  lemma UploadedSnoc(postId: nat, names: seq<string>, clock: nat -> string, sanitize: string -> string)
    requires names != []
    ensures var n := |names| - 1;
      Uploaded(postId, names, clock, sanitize) ==
        Uploaded(postId, names[..n], clock, sanitize)
          + (if Kept(names[n]) then [StoredImage(postId, names[n], n, clock, sanitize)] else [])
  {
  }

  /** Taking one more upload of the list into account adds exactly the row
      (and the stored name) of that upload when it is kept, and nothing
      otherwise. */
  lemma UploadedStep(postId: nat, names: seq<string>, i: nat, clock: nat -> string, sanitize: string -> string)
    requires i < |names|
    ensures Kept(names[i]) ==>
      && Uploaded(postId, names[..i + 1], clock, sanitize)
         == Uploaded(postId, names[..i], clock, sanitize) + [StoredImage(postId, names[i], i, clock, sanitize)]
      && FilenamesOf(Uploaded(postId, names[..i + 1], clock, sanitize))
         == FilenamesOf(Uploaded(postId, names[..i], clock, sanitize)) + {StoredImage(postId, names[i], i, clock, sanitize).filename}
    ensures !Kept(names[i]) ==>
      Uploaded(postId, names[..i + 1], clock, sanitize) == Uploaded(postId, names[..i], clock, sanitize)
  {
    UploadedSnoc(postId, names[..i + 1], clock, sanitize);
    assert names[..i + 1][..i] == names[..i];
    FilenamesOfSnoc(Uploaded(postId, names[..i], clock, sanitize), StoredImage(postId, names[i], i, clock, sanitize));
  }

  /** Orders strictly increase along the created rows (gaps where an upload
      was skipped). */
  lemma {:induction false} UploadedOrdersIncrease(postId: nat, names: seq<string>, clock: nat -> string, sanitize: string -> string)
    ensures forall k, l :: 0 <= k < l < |Uploaded(postId, names, clock, sanitize)| ==>
      Uploaded(postId, names, clock, sanitize)[k].order < Uploaded(postId, names, clock, sanitize)[l].order
    decreases |names|
  {
    if names != [] {
      var n := |names| - 1;
      var prefix := Uploaded(postId, names[..n], clock, sanitize);
      var r := Uploaded(postId, names, clock, sanitize);
      UploadedSnoc(postId, names, clock, sanitize);
      UploadedOrdersIncrease(postId, names[..n], clock, sanitize);
      if Kept(names[n]) {
        var last := StoredImage(postId, names[n], n, clock, sanitize);
        assert r == prefix + [last];
        UploadedRows(postId, names[..n], clock, sanitize);
        forall k | 0 <= k < |prefix| ensures prefix[k].order < last.order {
          assert prefix[k] in prefix;
          FromUploadExtends(prefix[k], postId, names, n, clock, sanitize);
        }
      } else {
        assert r == prefix;
      }
    }
  }

  /** Every kept upload gets a row: no allowed, non-empty name is dropped. */
  lemma {:induction false} UploadedCoversKept(postId: nat, names: seq<string>, clock: nat -> string, sanitize: string -> string)
    ensures var r := Uploaded(postId, names, clock, sanitize);
      forall i :: 0 <= i < |names| && Kept(names[i]) ==> exists k :: 0 <= k < |r| && r[k].order == i + 1
    decreases |names|
  {
    if names != [] {
      var n := |names| - 1;
      var prefix := Uploaded(postId, names[..n], clock, sanitize);
      var r := Uploaded(postId, names, clock, sanitize);
      UploadedSnoc(postId, names, clock, sanitize);
      UploadedCoversKept(postId, names[..n], clock, sanitize);
      assert |prefix| <= |r| && r[..|prefix|] == prefix;
      forall i | 0 <= i < |names| && Kept(names[i])
        ensures exists k :: 0 <= k < |r| && r[k].order == i + 1
      {
        if i < n {
          assert names[..n][i] == names[i];
          var k :| 0 <= k < |prefix| && prefix[k].order == i + 1;
          assert r[k] == prefix[k];
        } else {
          assert r[|prefix|].order == i + 1;
        }
      }
    }
  }

  /** A freshly written post has a primary image exactly when some upload
      was kept. */
  lemma PrimaryExistsIffKept(postId: nat, names: seq<string>, clock: nat -> string, sanitize: string -> string)
    ensures PrimaryImage(Uploaded(postId, names, clock, sanitize), postId).Some?
      <==> exists i :: 0 <= i < |names| && Kept(names[i])
  {
    var up := Uploaded(postId, names, clock, sanitize);
    UploadedBelongToPost(postId, names, clock, sanitize);
    if exists i :: 0 <= i < |names| && Kept(names[i]) {
      var i :| 0 <= i < |names| && Kept(names[i]);
      UploadedCoversKept(postId, names, clock, sanitize);
      var k :| 0 <= k < |up| && up[k].order == i + 1;
      assert up[k] in up;
    }
    var p := PrimaryImage(up, postId);
    if p.Some? {
      UploadedRows(postId, names, clock, sanitize);
      assert FromUpload(p.value, postId, names, clock, sanitize);
      assert Kept(names[p.value.order - 1]);
    }
  }

  /** The primary image of a freshly written post, when there is one, is
      the row of its first kept upload: no upload before it was kept. */
  lemma PrimaryIsFirstKept(postId: nat, names: seq<string>, clock: nat -> string, sanitize: string -> string)
    ensures var p := PrimaryImage(Uploaded(postId, names, clock, sanitize), postId);
      p.Some? ==>
        && FromUpload(p.value, postId, names, clock, sanitize)
        && forall i :: 0 <= i < p.value.order - 1 ==> !Kept(names[i])
  {
    var up := Uploaded(postId, names, clock, sanitize);
    var p := PrimaryImage(up, postId);
    if p.Some? {
      UploadedRows(postId, names, clock, sanitize);
      assert FromUpload(p.value, postId, names, clock, sanitize);
      UploadedCoversKept(postId, names, clock, sanitize);
      UploadedBelongToPost(postId, names, clock, sanitize);
      forall i | 0 <= i < |names| && Kept(names[i]) ensures p.value.order <= i + 1 {
        var k :| 0 <= k < |up| && up[k].order == i + 1;
        assert up[k] in up;
      }
    }
  }

  // ---------------------------------------------------------------------
  // How the queries behave across writes and deletes
  // ---------------------------------------------------------------------

  lemma {:induction false} ImagesOfAppend(a: seq<Image>, b: seq<Image>, postId: nat)
    ensures ImagesOf(a + b, postId) == ImagesOf(a, postId) + ImagesOf(b, postId)
  {
    if a != [] {
      assert (a + b)[0] == a[0];
      assert (a + b)[1..] == a[1..] + b;
      ImagesOfAppend(a[1..], b, postId);
      var head := if a[0].postId == postId then [a[0]] else [];
      assert ImagesOf(a + b, postId) == head + ImagesOf(a[1..] + b, postId);
      assert ImagesOf(a, postId) == head + ImagesOf(a[1..], postId);
    } else {
      assert a + b == b;
    }
  }

  lemma {:induction false} ImagesOfAllOf(rows: seq<Image>, postId: nat)
    requires forall k :: 0 <= k < |rows| ==> rows[k].postId == postId
    ensures ImagesOf(rows, postId) == rows
  {
    if rows != [] {
      ImagesOfAllOf(rows[1..], postId);
    }
  }

  lemma {:induction false} ImagesOfNoneOf(rows: seq<Image>, postId: nat)
    requires forall k :: 0 <= k < |rows| ==> rows[k].postId != postId
    ensures ImagesOf(rows, postId) == []
  {
    if rows != [] {
      ImagesOfNoneOf(rows[1..], postId);
    }
  }

  /** `get_image_count` counts exactly the rows the post's filter returns. */
  lemma {:induction false} ImageCountIsImagesOf(images: seq<Image>, postId: nat)
    ensures ImageCount(images, postId) == |ImagesOf(images, postId)|
  {
    if images != [] {
      ImageCountIsImagesOf(images[1..], postId);
    }
  }

  /** `get_primary_image` looks only at the post's own rows. */
  lemma {:induction false} PrimaryImageOfOwnRows(images: seq<Image>, postId: nat)
    ensures PrimaryImage(images, postId) == PrimaryImage(ImagesOf(images, postId), postId)
  {
    if images != [] {
      var tail := images[1..];
      PrimaryImageOfOwnRows(tail, postId);
      var own := ImagesOf(images, postId);
      if images[0].postId == postId {
        assert own == [images[0]] + ImagesOf(tail, postId);
        assert own[0] == images[0] && own[1..] == ImagesOf(tail, postId);
      } else {
        assert own == ImagesOf(tail, postId);
      }
    }
  }

  /** Removing a post's rows empties that post's filter and leaves the
      filter of every other post as it was. */
  lemma {:induction false} ImagesOfAfterDelete(images: seq<Image>, postId: nat, other: nat)
    ensures ImagesOf(ImagesNotOf(images, postId), other) ==
      if other == postId then [] else ImagesOf(images, other)
  {
    if images != [] {
      var tail := images[1..];
      ImagesOfAfterDelete(tail, postId, other);
      var rest := ImagesNotOf(images, postId);
      if images[0].postId != postId {
        assert rest == [images[0]] + ImagesNotOf(tail, postId);
        assert rest[0] == images[0] && rest[1..] == ImagesNotOf(tail, postId);
      } else {
        assert rest == ImagesNotOf(tail, postId);
      }
    }
  }

  /** After the cascade, the deleted post has no image and no primary image,
      and every other post keeps its images, count and primary image. */
  lemma DeleteQueries(images: seq<Image>, postId: nat)
    ensures var rest := ImagesNotOf(images, postId);
      && ImagesOf(rest, postId) == []
      && ImageCount(rest, postId) == 0
      && PrimaryImage(rest, postId) == None
      && forall other :: other != postId ==>
           && ImagesOf(rest, other) == ImagesOf(images, other)
           && ImageCount(rest, other) == ImageCount(images, other)
           && PrimaryImage(rest, other) == PrimaryImage(images, other)
  {
    var rest := ImagesNotOf(images, postId);
    ImagesOfAfterDelete(images, postId, postId);
    forall other | other != postId
      ensures ImagesOf(rest, other) == ImagesOf(images, other)
      ensures ImageCount(rest, other) == ImageCount(images, other)
      ensures PrimaryImage(rest, other) == PrimaryImage(images, other)
    {
      ImagesOfAfterDelete(images, postId, other);
      ImageCountIsImagesOf(rest, other);
      ImageCountIsImagesOf(images, other);
      PrimaryImageOfOwnRows(rest, other);
      PrimaryImageOfOwnRows(images, other);
    }
  }

  /** The rows a write creates all belong to the new post, in increasing
      order. */
  lemma UploadedBelongToPost(postId: nat, names: seq<string>, clock: nat -> string, sanitize: string -> string)
    ensures forall row :: row in Uploaded(postId, names, clock, sanitize) ==> row.postId == postId && 1 <= row.order
    ensures forall k :: 0 <= k < |Uploaded(postId, names, clock, sanitize)| ==>
      Uploaded(postId, names, clock, sanitize)[0].order <= Uploaded(postId, names, clock, sanitize)[k].order
  {
    var up := Uploaded(postId, names, clock, sanitize);
    UploadedRows(postId, names, clock, sanitize);
    forall row | row in up ensures row.postId == postId && 1 <= row.order {
      assert FromUpload(row, postId, names, clock, sanitize);
    }
    UploadedOrdersIncrease(postId, names, clock, sanitize);
    forall k | 0 <= k < |up| ensures up[k].postId == postId {
      assert up[k] in up;
    }
  }

  /** After a write that appends the rows of a new post (an id no existing
      row uses), the new post's images are exactly the created rows and its
      count is their number. */
  lemma WriteQueriesNewPost(images: seq<Image>, postId: nat, names: seq<string>, clock: nat -> string, sanitize: string -> string)
    requires forall k :: 0 <= k < |images| ==> images[k].postId != postId
    ensures var up := Uploaded(postId, names, clock, sanitize);
      && ImagesOf(images + up, postId) == up
      && ImageCount(images + up, postId) == |up|
  {
    var up := Uploaded(postId, names, clock, sanitize);
    UploadedBelongToPost(postId, names, clock, sanitize);
    ImagesOfAppend(images, up, postId);
    ImagesOfAllOf(up, postId);
    ImagesOfNoneOf(images, postId);
    ImageCountIsImagesOf(images + up, postId);
  }

  /** The primary image of the new post is the first created row. */
  lemma WritePrimaryImage(images: seq<Image>, postId: nat, names: seq<string>, clock: nat -> string, sanitize: string -> string)
    requires forall k :: 0 <= k < |images| ==> images[k].postId != postId
    ensures var up := Uploaded(postId, names, clock, sanitize);
      PrimaryImage(images + up, postId) == (if up == [] then None else Some(up[0]))
  {
    var up := Uploaded(postId, names, clock, sanitize);
    WriteQueriesNewPost(images, postId, names, clock, sanitize);
    PrimaryImageOfOwnRows(images + up, postId);
    if up != [] {
      UploadedBelongToPost(postId, names, clock, sanitize);
      UploadedOrdersIncrease(postId, names, clock, sanitize);
      var p := PrimaryImage(up, postId);
      var k :| 0 <= k < |up| && up[k] == p.value;
      assert p.value.order <= up[0].order;
      assert k == 0;
    }
  }

  /** A write leaves every other post's images, count and primary image
      unchanged. */
  lemma WriteQueriesOtherPosts(images: seq<Image>, postId: nat, names: seq<string>, clock: nat -> string, sanitize: string -> string, other: nat)
    requires other != postId
    ensures var all := images + Uploaded(postId, names, clock, sanitize);
      && ImagesOf(all, other) == ImagesOf(images, other)
      && ImageCount(all, other) == ImageCount(images, other)
      && PrimaryImage(all, other) == PrimaryImage(images, other)
  {
    var up := Uploaded(postId, names, clock, sanitize);
    var all := images + up;
    UploadedBelongToPost(postId, names, clock, sanitize);
    assert forall k :: 0 <= k < |up| ==> up[k].postId != other;
    ImagesOfNoneOf(up, other);
    ImagesOfAppend(images, up, other);
    assert ImagesOf(all, other) == ImagesOf(images, other);
    ImageCountIsImagesOf(all, other);
    ImageCountIsImagesOf(images, other);
    PrimaryImageOfOwnRows(all, other);
    PrimaryImageOfOwnRows(images, other);
  }

  // ---------------------------------------------------------------------
  // The store invariant
  // ---------------------------------------------------------------------

  /** No two rows of one post, at different positions of the table, share
      an order. */
  ghost predicate OrdersDistinct(images: seq<Image>) {
    forall k, l :: 0 <= k < l < |images| && images[k].postId == images[l].postId ==>
      images[k].order != images[l].order
  }

  /** What every reachable store satisfies: post ids are below the next id
      to hand out, every image row belongs to an existing post and has a
      positive order, and no two rows of one post share an order (so the
      primary image is never a tie). */
  ghost predicate StoreInvariant(posts: map<nat, Post>, nextPostId: nat, images: seq<Image>) {
    && (forall id :: id in posts ==> id < nextPostId)
    && (forall img :: img in images ==> img.postId in posts && 1 <= img.order)
    && OrdersDistinct(images)
  }

  /** The id a write is about to use has no image rows yet. */
  lemma FreshIdHasNoImages(posts: map<nat, Post>, nextPostId: nat, images: seq<Image>)
    requires StoreInvariant(posts, nextPostId, images)
    ensures forall k :: 0 <= k < |images| ==> images[k].postId != nextPostId
  {
    forall k | 0 <= k < |images| ensures images[k].postId != nextPostId {
      assert images[k] in images;
    }
  }

  /** Under the invariant, the primary image is THE row of the post with
      the smallest order: the tie-break by table order never matters. */
  lemma PrimaryImageUnique(posts: map<nat, Post>, nextPostId: nat, images: seq<Image>, img: Image)
    requires StoreInvariant(posts, nextPostId, images)
    requires img in images
    requires forall k :: 0 <= k < |images| && images[k].postId == img.postId ==> img.order <= images[k].order
    ensures PrimaryImage(images, img.postId) == Some(img)
  {
    var k :| 0 <= k < |images| && images[k] == img;
    var p := PrimaryImage(images, img.postId);
    assert p.Some?;
    var j :| 0 <= j < |images| && images[j] == p.value;
    assert p.value.order == img.order;
  }

  /** Two rows created by one write with the same order are the same row. */
  lemma UploadedOrdersDistinct(postId: nat, names: seq<string>, clock: nat -> string, sanitize: string -> string)
    ensures var up := Uploaded(postId, names, clock, sanitize);
      forall a, b :: a in up && b in up && a.order == b.order ==> a == b
  {
    var up := Uploaded(postId, names, clock, sanitize);
    UploadedRows(postId, names, clock, sanitize);
    forall a, b | a in up && b in up && a.order == b.order ensures a == b {
      assert FromUpload(a, postId, names, clock, sanitize);
      assert FromUpload(b, postId, names, clock, sanitize);
    }
  }

  /** Rows of a fresh post id, in increasing order, appended to a table
      with distinct orders per post keep the orders distinct. */
  lemma AppendKeepsOrdersDistinct(images: seq<Image>, up: seq<Image>, postId: nat)
    requires OrdersDistinct(images)
    requires forall k :: 0 <= k < |images| ==> images[k].postId != postId
    requires forall row :: row in up ==> row.postId == postId
    requires forall k, l :: 0 <= k < l < |up| ==> up[k].order < up[l].order
    ensures OrdersDistinct(images + up)
  {
    var all := images + up;
    var n := |images|;
    forall k, l | 0 <= k < n <= l < |all| ensures all[k].postId != all[l].postId {
      assert all[k] == images[k];
      assert all[l] == up[l - n] && up[l - n] in up;
    }
    forall k, l | 0 <= k < l < |all| && all[k].postId == all[l].postId
      ensures all[k].order != all[l].order
    {
      if l < n {
        assert all[k] == images[k] && all[l] == images[l];
      } else if n <= k {
        assert all[k] == up[k - n] && all[l] == up[l - n];
      }
    }
  }

  /** In a store that satisfies the invariant, the post a write creates has
      exactly the created rows as its images, their number as its count and
      the first of them as its primary image. */
  lemma WriteQueriesFreshPost(posts: map<nat, Post>, nextPostId: nat, images: seq<Image>,
                              names: seq<string>, clock: nat -> string, sanitize: string -> string)
    requires StoreInvariant(posts, nextPostId, images)
    ensures ImagesOf(images + Uploaded(nextPostId, names, clock, sanitize), nextPostId)
      == Uploaded(nextPostId, names, clock, sanitize)
    ensures ImageCount(images + Uploaded(nextPostId, names, clock, sanitize), nextPostId)
      == |Uploaded(nextPostId, names, clock, sanitize)|
    ensures PrimaryImage(images + Uploaded(nextPostId, names, clock, sanitize), nextPostId)
      == if Uploaded(nextPostId, names, clock, sanitize) == [] then None
         else Some(Uploaded(nextPostId, names, clock, sanitize)[0])
  {
    FreshIdHasNoImages(posts, nextPostId, images);
    WriteQueriesNewPost(images, nextPostId, names, clock, sanitize);
    WritePrimaryImage(images, nextPostId, names, clock, sanitize);
  }

  /** Writing a post with its uploads keeps the invariant. */
  lemma WritePreservesInvariant(posts: map<nat, Post>, nextPostId: nat, images: seq<Image>, post: Post,
                                names: seq<string>, clock: nat -> string, sanitize: string -> string)
    requires StoreInvariant(posts, nextPostId, images)
    ensures StoreInvariant(posts[nextPostId := post], nextPostId + 1,
                           images + Uploaded(nextPostId, names, clock, sanitize))
  {
    var up := Uploaded(nextPostId, names, clock, sanitize);
    UploadedBelongToPost(nextPostId, names, clock, sanitize);
    UploadedOrdersIncrease(nextPostId, names, clock, sanitize);
    assert forall k, l :: 0 <= k < l < |up| ==> up[k].order < up[l].order;
    FreshIdHasNoImages(posts, nextPostId, images);
    AppendKeepsOrdersDistinct(images, up, nextPostId);
  }

  /** A row put in front of rows with distinct orders keeps them distinct
      when no row of its post has its order. */
  lemma ConsKeepsOrdersDistinct(head: Image, rows: seq<Image>)
    requires OrdersDistinct(rows)
    requires forall row :: row in rows && row.postId == head.postId ==> row.order != head.order
    ensures OrdersDistinct([head] + rows)
  {
    var r := [head] + rows;
    forall k, l | 0 <= k < l < |r| && r[k].postId == r[l].postId
      ensures r[k].order != r[l].order
    {
      assert r[l] == rows[l - 1] && rows[l - 1] in rows;
      if k > 0 {
        assert r[k] == rows[k - 1];
      }
    }
  }

  /** Distinct orders hold of the tail, and the head's order differs from
      that of every row of its post in the tail. */
  lemma OrdersDistinctSplit(images: seq<Image>)
    requires images != [] && OrdersDistinct(images)
    ensures OrdersDistinct(images[1..])
    ensures forall row :: row in images[1..] && row.postId == images[0].postId ==> row.order != images[0].order
  {
    var tail := images[1..];
    forall k, l | 0 <= k < l < |tail| && tail[k].postId == tail[l].postId
      ensures tail[k].order != tail[l].order
    {
      assert tail[k] == images[k + 1] && tail[l] == images[l + 1];
    }
    forall row | row in tail && row.postId == images[0].postId
      ensures row.order != images[0].order
    {
      var j :| 0 <= j < |tail| && tail[j] == row;
      assert images[j + 1] == row;
    }
  }

  /** Dropping the rows of one post keeps the rows of all other posts in
      their table order, so no two of them come to share an order. */
  lemma {:induction false} ImagesNotOfKeepsOrdersDistinct(images: seq<Image>, postId: nat)
    requires OrdersDistinct(images)
    ensures OrdersDistinct(ImagesNotOf(images, postId))
  {
    if images != [] {
      var tail := images[1..];
      OrdersDistinctSplit(images);
      ImagesNotOfKeepsOrdersDistinct(tail, postId);
      var rest := ImagesNotOf(tail, postId);
      if images[0].postId != postId {
        assert ImagesNotOf(images, postId) == [images[0]] + rest;
        ConsKeepsOrdersDistinct(images[0], rest);
      } else {
        assert ImagesNotOf(images, postId) == rest;
      }
    }
  }

  /** Deleting a post together with its image rows keeps the invariant. */
  lemma DeletePreservesInvariant(posts: map<nat, Post>, nextPostId: nat, images: seq<Image>, postId: nat)
    requires StoreInvariant(posts, nextPostId, images)
    ensures StoreInvariant(posts - {postId}, nextPostId, ImagesNotOf(images, postId))
  {
    ImagesNotOfKeepsOrdersDistinct(images, postId);
  }
}
