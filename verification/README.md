# Bulletin board core, modelled in Dafny

This project models the logic core of a small Flask bulletin-board site
(`app.py`): the admin session flag, the check that decides which uploaded
files are images, the rewrite of the configured database URL, and the
post and image tables as changed by writing and deleting posts, together
with the two queries the templates use (`get_primary_image`,
`get_image_count`).

Layout, one module per component:

- `option.dfy` (`Opt`): an `Option` type for absent form fields, unset
  environment variables and empty query results.
- `text.dfy` (`Text`): the Python string operations the code relies on:
  `startswith`, `rsplit('.', 1)`, `lower()`, `replace(old, new, 1)`, and
  `str(n)` for a non-negative integer.
- `uploads.dfy` (`Uploads`): `ALLOWED_EXTENSIONS` and `allowed_file`, plus
  the "kept upload" test of `write_post` (a non-empty, allowed name).
- `config.dfy` (`Config`): the `DATABASE_URL` / `sqlite:///site.db` choice,
  the `postgres://` to `postgresql://` rewrite, and the `ADMIN_PASSWORD`
  default `admin123`.
- `store.dfy` (`Store`): `Post` and `Image` rows, the image table as a
  sequence of rows in insertion order, the queries, the function
  `Uploaded` that gives the rows `write_post` creates from an upload
  list, the store invariant, and the lemmas about them.
- `site.dfy` (`Site`): class `Board`, holding the tables, the files in
  the upload folder and the session's `is_admin` flag, with one method
  per state-changing route.

`check_admin` is the read of `Board.isAdmin`: a session without the key
reads as `false`, so logout is modelled as setting the flag to `false`.
Every mutating route checks it first and, when it is false, answers
`Redirect(LoginPage)` and changes nothing (`unchanged(this)`).

Inputs the code reads from its environment are parameters: the two
environment variables (as `Option<string>`), the form fields (as
`Option<string>`, since `request.form.get` gives `None` for a missing
field), the list of uploaded file names, the timestamp read while
handling upload `i` (`clock(i)`), `secure_filename` (`sanitize`), and the
posting time. The upload folder is a set of file names.

## Model

| member | source | states |
|---|---|---|
| `Text.LastIndexOf` | app.py:90 | The result is absent exactly when the character does not occur; otherwise it is an occurrence with no occurrence after it (the split point of `rsplit(c, 1)`). |
| `Text.FindFrom` | app.py:25 | The result is the first occurrence of the pattern at or after the start: it occurs there and nowhere between; absent means it occurs nowhere from the start on (the position `replace(old, new, 1)` rewrites). |
| `Text.ReplaceFirst` | app.py:25 | `replace(old, new, 1)`: when the pattern starts the string, the result is the replacement followed by the rest; when the pattern occurs nowhere, the string is unchanged. |
| `Text.NatToDecimal` | app.py:179 | `str(i+1)` is a non-empty string of decimal digits that starts with `0` only for zero. |
| `Text.DecimalRoundTrip` | app.py:179 | Reading the rendered position back as a decimal number gives the position. |
| `Uploads.Extension` | app.py:90 | The extension is absent exactly when the name has no dot; otherwise it has no dot and name = head + "." + extension. |
| `Uploads.AllowedFile` | app.py:89-90 | `allowed_file`: an accepted name has a dot and at least four characters (a dot and a three- or four-letter extension); `AllowedFileIff` gives the exact characterisation. |
| `Uploads.Kept` | app.py:177 | The test of the upload loop (`file.filename != ''` and `allowed_file`) accepts exactly the names `allowed_file` accepts: the emptiness check never decides. |
| `Uploads.AllowedFileIff` | app.py:89-90 | `allowed_file(f)` holds exactly when some dot of `f` is its last dot and the text after it, lower-cased, is png, jpg, jpeg or gif. |
| `Uploads.AllowedFileIgnoresCase` | app.py:90 | A name and its lower-cased form are accepted or rejected together. |
| `Uploads.AllowedFileWithExtension` | app.py:39 | Any stem, dots included, followed by a dot and an allowed extension in any case is accepted. |
| `Uploads.AcceptsUpperCase` | app.py:89-90 | `x.PNG` is accepted: the extension is lower-cased before the comparison. |
| `Uploads.RejectsNoDot` | app.py:89-90 | `png` is rejected: it has no dot. |
| `Uploads.RejectsEmptyExtension` | app.py:89-90 | `x.` is rejected: its extension is empty. |
| `Uploads.RejectsInnerExtension` | app.py:89-90 | `image.png.exe` is rejected: the allowed extension is not the last one. |
| `Config.NormalizeDatabaseUrl` | app.py:24-25 | A URL without the `postgres://` prefix is kept; one with it grows by two characters and starts with `postgresql://`. `NormalizeRewritesOnlyPrefix` gives the closed form. |
| `Config.DatabaseUri` | app.py:20-29 | An unset or empty `DATABASE_URL` gives `sqlite:///site.db`, and no configured URI starts with `postgres://`; `DatabaseUriCases` gives both cases in closed form. |
| `Config.AdminPassword` | app.py:81 | The password is `admin123` exactly when `ADMIN_PASSWORD` is unset or set to `admin123`. |
| `Config.AdminPasswordCases` | app.py:81 | Unset gives `admin123`; a set value, even an empty one, is used as given. |
| `Config.NormalizeRewritesOnlyPrefix` | app.py:24-25 | A URL starting with `postgres://` becomes `postgresql://` followed by the rest of the URL unchanged; any other URL is returned unchanged. |
| `Config.NormalizedHasNoPostgresPrefix` | app.py:24-25 | After the rewrite no URL starts with `postgres://`, and a rewritten one starts with `postgresql://`. |
| `Config.NormalizeIdempotent` | app.py:24-25 | Applying the rewrite twice gives the same URL as applying it once. |
| `Config.DatabaseUriCases` | app.py:20-29 | An unset or empty `DATABASE_URL` gives `sqlite:///site.db`; a non-empty one gives the URL with only its leading `postgres://` rewritten. |
| `Store.ImagesOf` | app.py:214 | The filter by post id keeps exactly the rows of that post, and only them. |
| `Store.ImagesNotOf` | app.py:220-221 | The rows left by the cascade are exactly the rows of other posts. |
| `Store.ImageCount` | app.py:99-104 | The count is at most the table size and is zero exactly when no row has that post id. |
| `Store.ImageCountIsImagesOf` | app.py:99-104 | The count equals the number of rows the post's filter returns. |
| `Store.PrimaryImage` | app.py:92-97 | The result is absent exactly when the post has no row; otherwise it is a row of the post whose order is no larger than that of any row of the post. |
| `Store.PrimaryImageOfOwnRows` | app.py:92-97 | The primary image depends only on the post's own rows. |
| `Store.PrimaryImageUnique` | app.py:94 | In a store satisfying the invariant, the row of a post with the smallest order is the primary image, so ordering ties never decide it. |
| `Store.StoredImage` | app.py:178-189 | The row for the upload at index `i` belongs to the new post, has order `i + 1` and the upload's own name as its original name, and its stored name starts with the timestamp, `_`, the decimal `i + 1` and `_`, and ends with the sanitised name. |
| `Store.Uploaded` | app.py:175-190 | The upload loop creates at most one row per upload; `UploadedRows`, `UploadedCoversKept` and `UploadedOrdersIncrease` pin down exactly which rows, in which order. |
| `Store.UploadedRows` | app.py:175-190 | Every created row belongs to the new post and comes from a kept upload at index i: order i+1, original name the upload's, stored name `{clock(i)}_{i+1}_{sanitize(name)}`. |
| `Store.UploadedCoversKept` | app.py:176-177 | Every upload with a non-empty, allowed name gets a row with order equal to its 1-based index. |
| `Store.UploadedOrdersIncrease` | app.py:176-188 | Orders strictly increase along the created rows. |
| `Store.UploadedOrdersDistinct` | app.py:188 | Two created rows with the same order are the same row. |
| `Store.UploadedBelongToPost` | app.py:187-188 | All created rows carry the new post's id and a positive order, and the first has the smallest order. |
| `Store.PrimaryExistsIffKept` | app.py:176-190 | The created rows have a primary image exactly when some upload was kept. |
| `Store.PrimaryIsFirstKept` | app.py:176-190 | When there is a primary image, it is the row of a kept upload and no upload before that one was kept: it is the row of the first kept upload. |
| `Store.ImagesOfAfterDelete` | app.py:220-221 | After the cascade the deleted post's filter is empty and every other post's filter is unchanged. |
| `Store.DeleteQueries` | app.py:210-222 | After the cascade the deleted post has no image, a count of 0 and no primary image; every other post keeps its images, count and primary image. |
| `Store.WriteQueriesNewPost` | app.py:184-190 | After a write, the new post's images are exactly the created rows and its count is their number. |
| `Store.WritePrimaryImage` | app.py:184-190 | After a write, the new post's primary image is the first created row, or none when no upload was kept. |
| `Store.WriteQueriesOtherPosts` | app.py:184-190 | A write leaves every other post's images, count and primary image unchanged. |
| `Store.FreshIdHasNoImages` | app.py:168-172 | In a store satisfying the invariant, no row of the image table carries the id the next write will use. |
| `Store.UploadedStep` | app.py:176-190 | One more iteration of the upload loop adds exactly the row and the stored name of that upload when it is kept, and nothing when it is skipped. |
| `Store.WriteQueriesFreshPost` | app.py:168-190 | In a store satisfying the invariant, after a write the new post's images are exactly the created rows, its count is their number and its primary image is the first of them, or none when no upload was kept. |
| `Store.AppendKeepsOrdersDistinct` | app.py:184-190 | Appending rows of a post no existing row belongs to, in strictly increasing order, keeps every post's rows at distinct table positions free of shared orders. |
| `Store.WritePreservesInvariant` | app.py:168-192 | Adding a post under the next id with its created rows keeps the invariant: ids below the next id, every row's post exists and has a positive order, and no two rows of one post at different table positions share an order. |
| `Store.ConsKeepsOrdersDistinct` | app.py:220-221 | A row put in front of rows with no shared order per post keeps that property when no row of its post has its order. |
| `Store.OrdersDistinctSplit` | app.py:220-221 | Without shared orders per post, the tail of the table has none either and no row of the head's post in the tail has the head's order. |
| `Store.ImagesNotOfKeepsOrdersDistinct` | app.py:220-221 | The cascade keeps the remaining rows in table order, so no two of them come to share an order within a post. |
| `Store.DeletePreservesInvariant` | app.py:210-222 | Removing a post and all its rows keeps the invariant. |
| `Site.Board.constructor` | app.py:81 | A new site has no posts, no rows, no admin session, and the admin password from `ADMIN_PASSWORD` or `admin123` when unset. |
| `Site.Board.AdminLogin` | app.py:138-148 | A POST with the right password sets the flag and redirects to the board; a GET, a wrong or a missing password leaves the flag as it was and renders the login form. |
| `Site.Board.AdminLogout` | app.py:150-154 | The flag is false afterwards and the answer redirects to the index. |
| `Site.Board.WritePost` | app.py:157-201 | Without the flag: redirect to login, nothing changes. GET: the form, nothing changes. A missing title, author or content: rolled back, redirect to the form. Otherwise the post is stored under the next id, exactly the `Uploaded` rows are appended and their files saved, the new post's images, count and primary image are those rows, their number and the first of them, and the invariant is kept. |
| `Site.Board.Publish` | app.py:168-192 | The successful write: the post is stored under the next id, exactly the `Uploaded` rows are appended and their files saved, the new post's images, count and primary image follow from those rows, and the invariant is kept. |
| `Site.Board.SaveUploads` | app.py:175-190 | The upload loop appends exactly the `Uploaded` rows to the image table and adds exactly their stored names to the upload folder; nothing else changes. |
| `Site.Board.SaveUpload` | app.py:177-190 | One pass of the upload loop: a kept upload adds exactly its `StoredImage` row and its stored name; any other upload changes nothing. |
| `Site.Board.RemoveFiles` | app.py:214-218 | The file loop leaves the upload folder without the files of the given rows; a file that is already absent is skipped. |
| `Site.Board.DeletePost` | app.py:204-229 | Without the flag: redirect to login, nothing changes. Unknown post: not found, nothing changes. Otherwise the post and every row of it are gone, every other post and row stays, the files of its rows are removed (those already absent are skipped), and the invariant is kept; the deleted post then has a count of 0 and no primary image. |

## Left out

- Flask routing, templates, `flash` messages, `url_for` and the context processor (app.py:109-116): responses are modelled only as which page is rendered or redirected to.
- The board listing and post detail routes (app.py:126-135) and their `order_by` queries: they only read and render.
- `get_display_date` (app.py:106-107) returns the stored `date_posted` unchanged; the model keeps it as `Post.datePosted` and has no separate member.
- The image row's `id` and `date_uploaded` columns: no route reads them. The image table is a sequence of rows in insertion order.
- Post ids are a counter that never reuses an id; the database may hand out ids differently, but no property here depends on which fresh id is chosen.
- Database failures other than the NOT NULL check of the three post fields (string length limits enforced by some engines, connection errors), the `try`/`except` fallbacks of `get_primary_image` and `get_image_count`, and file-system errors in `file.save` and `os.remove`: they depend on the engine or the disk.
- The file bytes, the folder path join and `os.makedirs` at start-up.
- `MAX_CONTENT_LENGTH` (app.py:43) is configuration only. The framework answers an oversized body with status 413 when the handler first reads the form (app.py:164), which is after the admin check (app.py:159): a non-admin still gets the login redirect, and an admin's oversized write ends before anything changes. The size limit is not modelled, so the model has no 413 answer.
- `secure_filename` and `datetime.now()` are opaque parameters; their own behaviour is not modelled.
- `SECRET_KEY` and `app.run`: session signing and process start-up.
- `Text.LowerChar`: lower-cases only ASCII `A`-`Z`, where Python's `lower()` covers all of Unicode; the extensions compared against are ASCII.
- One session: the model has a single client's `is_admin` flag.
- The model does not claim that every remaining row's file still exists after a delete: two posts written with the same timestamp, position and sanitised name share one stored file name, and deleting either removes it.
