/** The request handlers that touch state: the admin session flag, writing
    a post with its image uploads, and deleting a post with its images. */
module Site {
  import opened Opt
  import opened Uploads
  import opened Store
  import Config

  /** The HTTP method of a request. */
  datatype Verb = HttpGet | HttpPost

  /** The pages a handler renders or redirects to. */
  datatype Page = IndexPage | BoardPage | LoginPage | WritePage

  /** What a handler answers. */
  datatype Response = Redirect(to: Page) | Render(page: Page) | NotFound

  /** One running site with one client session: the post and image tables,
      the names of the files in the upload folder, and the session's
      `is_admin` flag. */
  class Board {
    const adminPassword: string
    var isAdmin: bool
    var posts: map<nat, Post>
    var nextPostId: nat
    var images: seq<Image>
    var files: set<string>

    ghost predicate Valid()
      reads this
    {
      StoreInvariant(posts, nextPostId, images)
    }

    /** A fresh site: empty tables, no admin session, the configured
        password, and whatever the upload folder already holds. */
    constructor (passwordSetting: Option<string>, uploadFolder: set<string>)
      ensures Valid()
      ensures adminPassword == Config.AdminPassword(passwordSetting)
      ensures !isAdmin && posts == map[] && images == [] && files == uploadFolder
    {
      adminPassword := Config.AdminPassword(passwordSetting);
      isAdmin := false;
      posts := map[];
      nextPostId := 1;
      images := [];
      files := uploadFolder;
    }

    /** `/admin/login`: a POST with the right password sets the flag and goes
        to the board; anything else leaves the flag and shows the form. */
    method AdminLogin(verb: Verb, password: Option<string>) returns (resp: Response)
      modifies this`isAdmin
      ensures verb == HttpPost && password == Some(adminPassword) ==>
        isAdmin && resp == Redirect(BoardPage)
      ensures !(verb == HttpPost && password == Some(adminPassword)) ==>
        isAdmin == old(isAdmin) && resp == Render(LoginPage)
    {
      if verb == HttpPost {
        if password == Some(adminPassword) {
          isAdmin := true;
          return Redirect(BoardPage);
        }
      }
      resp := Render(LoginPage);
    }

    /** `/admin/logout`: the flag is gone whatever it was. */
    method AdminLogout() returns (resp: Response)
      modifies this`isAdmin
      ensures !isAdmin && resp == Redirect(IndexPage)
    {
      isAdmin := false;
      resp := Redirect(IndexPage);
    }

    /** `/write`. Without the admin flag: back to login, nothing changes.
        A GET shows the form. A POST missing a title, author or content
        fails the NOT NULL constraint, is rolled back and goes back to the
        form. Otherwise the post gets the next id and every kept upload is
        saved and becomes a row of the new post (see `Store.Uploaded`). */
    method WritePost(verb: Verb, title: Option<string>, author: Option<string>, content: Option<string>,
                     names: seq<string>, clock: nat -> string, sanitize: string -> string, postedAt: string)
      returns (resp: Response)
      requires Valid()
      modifies this
      ensures Valid()
      ensures !old(isAdmin) ==> resp == Redirect(LoginPage) && unchanged(this)
      ensures old(isAdmin) && verb == HttpGet ==> resp == Render(WritePage) && unchanged(this)
      ensures old(isAdmin) && verb == HttpPost && (title.None? || author.None? || content.None?) ==>
        resp == Redirect(WritePage) && unchanged(this)
      ensures old(isAdmin) && verb == HttpPost && title.Some? && author.Some? && content.Some? ==>
        && resp == Redirect(BoardPage)
        && isAdmin
        && posts == old(posts)[old(nextPostId) := Post(title.value, content.value, author.value, postedAt)]
        && nextPostId == old(nextPostId) + 1
        && images == old(images) + Uploaded(old(nextPostId), names, clock, sanitize)
        && files == old(files) + FilenamesOf(Uploaded(old(nextPostId), names, clock, sanitize))
        && ImagesOf(images, old(nextPostId)) == Uploaded(old(nextPostId), names, clock, sanitize)
        && ImageCount(images, old(nextPostId)) == |Uploaded(old(nextPostId), names, clock, sanitize)|
        && PrimaryImage(images, old(nextPostId)) ==
             (if Uploaded(old(nextPostId), names, clock, sanitize) == [] then None
              else Some(Uploaded(old(nextPostId), names, clock, sanitize)[0]))
    {
      if !isAdmin {
        return Redirect(LoginPage);
      }
      if verb == HttpGet {
        return Render(WritePage);
      }
      if title.None? || author.None? || content.None? {
        return Redirect(WritePage);
      }
      Publish(Post(title.value, content.value, author.value, postedAt), names, clock, sanitize);
      resp := Redirect(BoardPage);
    }

    /** The successful part of `/write`: the post is stored under the next
        id, then its uploads are saved. The new post's images are exactly
        the created rows. */
    method Publish(post: Post, names: seq<string>, clock: nat -> string, sanitize: string -> string)
      requires Valid()
      modifies this`posts, this`nextPostId, this`images, this`files
      ensures Valid()
      ensures posts == old(posts)[old(nextPostId) := post]
      ensures nextPostId == old(nextPostId) + 1
      ensures images == old(images) + Uploaded(old(nextPostId), names, clock, sanitize)
      ensures files == old(files) + FilenamesOf(Uploaded(old(nextPostId), names, clock, sanitize))
      ensures ImagesOf(images, old(nextPostId)) == Uploaded(old(nextPostId), names, clock, sanitize)
      ensures ImageCount(images, old(nextPostId)) == |Uploaded(old(nextPostId), names, clock, sanitize)|
      ensures PrimaryImage(images, old(nextPostId)) ==
        if Uploaded(old(nextPostId), names, clock, sanitize) == [] then None
        else Some(Uploaded(old(nextPostId), names, clock, sanitize)[0])
    {
      var id := nextPostId;
      ghost var before := images;
      ghost var up := Uploaded(id, names, clock, sanitize);
      WriteQueriesFreshPost(posts, nextPostId, images, names, clock, sanitize);
      WritePreservesInvariant(posts, nextPostId, images, post, names, clock, sanitize);
      posts := posts[id := post];
      nextPostId := id + 1;
      SaveUploads(id, names, clock, sanitize);
      assert images == before + up;
      assert StoreInvariant(posts, nextPostId, images);
    }

    /** The upload loop of `/write`: each upload with a non-empty, allowed
        name is saved to the upload folder and added as a row of post `id`
        with order `i + 1`, `i` being its index in the list. */
    method SaveUploads(id: nat, names: seq<string>, clock: nat -> string, sanitize: string -> string)
      modifies this`images, this`files
      ensures images == old(images) + Uploaded(id, names, clock, sanitize)
      ensures files == old(files) + FilenamesOf(Uploaded(id, names, clock, sanitize))
    {
      var i := 0;
      while i < |names|
        invariant 0 <= i <= |names|
        invariant images == old(images) + Uploaded(id, names[..i], clock, sanitize)
        invariant files == old(files) + FilenamesOf(Uploaded(id, names[..i], clock, sanitize))
      {
        ghost var done := Uploaded(id, names[..i], clock, sanitize);
        UploadedStep(id, names, i, clock, sanitize);
        SaveUpload(id, names[i], i, clock, sanitize);
        if Kept(names[i]) {
          assert images == old(images) + (done + [StoredImage(id, names[i], i, clock, sanitize)]);
        }
        i := i + 1;
      }
      assert names[..i] == names;
    }

    /** One pass of the upload loop: a kept upload is saved under its
        stored name and its row is added; any other upload is skipped. */
    method SaveUpload(id: nat, name: string, i: nat, clock: nat -> string, sanitize: string -> string)
      modifies this`images, this`files
      ensures Kept(name) ==>
        && images == old(images) + [StoredImage(id, name, i, clock, sanitize)]
        && files == old(files) + {StoredImage(id, name, i, clock, sanitize).filename}
      ensures !Kept(name) ==> images == old(images) && files == old(files)
    {
      if Kept(name) {
        var row := StoredImage(id, name, i, clock, sanitize);
        files := files + {row.filename};
        images := images + [row];
      }
    }

    /** `/post/<id>/delete`. Without the admin flag: back to login, nothing
        changes. An unknown post: not found, nothing changes. Otherwise the
        files of the post's images that still exist are removed, then the
        post and, by the cascade, all its image rows are deleted. */
    method DeletePost(postId: nat) returns (resp: Response)
      requires Valid()
      modifies this
      ensures Valid()
      ensures !old(isAdmin) ==> resp == Redirect(LoginPage) && unchanged(this)
      ensures old(isAdmin) && postId !in old(posts) ==> resp == NotFound && unchanged(this)
      ensures old(isAdmin) && postId in old(posts) ==>
        && resp == Redirect(BoardPage)
        && isAdmin && nextPostId == old(nextPostId)
        && posts == old(posts) - {postId}
        && images == ImagesNotOf(old(images), postId)
        && files == old(files) - FilenamesOf(ImagesOf(old(images), postId))
        && ImageCount(images, postId) == 0 && PrimaryImage(images, postId) == None
    {
      if !isAdmin {
        return Redirect(LoginPage);
      }
      if postId !in posts {
        return NotFound;
      }
      RemoveFiles(ImagesOf(images, postId));
      DeletePreservesInvariant(posts, nextPostId, images, postId);
      DeleteQueries(images, postId);
      posts := posts - {postId};
      images := ImagesNotOf(images, postId);
      resp := Redirect(BoardPage);
    }

    /** The file loop of the delete route: the file of each row is removed
        from the upload folder when it is there, and skipped otherwise. */
    method RemoveFiles(rows: seq<Image>)
      modifies this`files
      ensures files == old(files) - FilenamesOf(rows)
    {
      var i := 0;
      while i < |rows|
        invariant 0 <= i <= |rows|
        invariant files == old(files) - FilenamesOf(rows[..i])
      {
        assert rows[..i + 1] == rows[..i] + [rows[i]];
        FilenamesOfSnoc(rows[..i], rows[i]);
        var path := rows[i].filename;
        if path in files {
          files := files - {path};
        }
        i := i + 1;
      }
      assert rows[..i] == rows;
    }
  }
}
