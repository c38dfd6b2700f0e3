# byte_of_python publishing script — a Dafny model

The repository is one task file, `fabfile.py`, that publishes the book
"A Byte of Python". It converts Markdown chapters with an external converter,
uploads generated files and embedded images to an object-storage bucket, and
creates or updates one page per chapter on a WordPress site. Most of it is
glue around a subprocess, a storage SDK, an XML-RPC client and an HTML
parser. This project models the rules inside that glue and proves them:

- **Configuration** (`configuration.dfy`, module `Configuration`): the
  configured chapters and the load-time loop that stops on the first slug
  that differs from its lower-cased form. Lower-casing is ASCII only. The
  storage and WordPress flags are computed from an environment given as a
  map. `Load` runs the module-level code in source order and returns the
  settings or the error that stops the import.
- **Storage keys and URLs** (`storage.dfy`, module `Storage`): Python's
  `split`/`join`, the basename `filename.split('/')[-1]`, the output and asset
  keys, and the public URL `http://<host>/<key>`. An upload is the record
  `Upload(filename, key)`.
- **Image rewriting** (`images.dfy`, module `Images`): a converted document is
  reduced to the `src` values of its images, in document order.
  `ReplaceImagesWithS3Urls` overwrites them in place in an array, as the
  source does with the parsed tree. `MarkdownToHtml` wraps it.
- **The `wp` task** (`publish.dfy`, module `Publish`): the page list is
  fetched once, then each chapter is converted (its images uploaded) and its
  page is edited or created, and its URL is printed. Every remote call and
  printed URL goes into an effect log. `Wp` is the loop; `WpEffects` is the
  specification it meets; the lemmas read the log by kind of entry.
- **Outputs** (`outputs.dfy`, module `Outputs`): the `epub`/`pdf` tasks work
  on the working directory, modelled as a set of file names. `Clean` is the
  loop that deletes whichever generated output exists.

Behaviour modelled as the code has it:

- `fabfile.py:79` reads `os.environ['AWS_S3_BUCKET_NAME']` whether or not
  storage is enabled. An environment without that variable therefore stops
  the import with a `KeyError`; leaving it out does not just switch storage
  off. `Load` returns `Err(MissingVariable("AWS_S3_BUCKET_NAME"))` in that case.
  An empty bucket name is read without error and only disables storage.
- `wp` converts every chapter with `upload_assets_to_s3=True`
  (`fabfile.py:223-224`), whatever the storage flag says. So publishing asks
  for an upload of every image even when storage is disabled
  (`Publish.UploadsIgnoreStorageFlag`). Whether such an upload then succeeds
  depends on the storage credentials, which the model does not represent.
- The page list is a snapshot taken before the loop and never refreshed. Two
  chapters with the same new slug therefore both lead to a page creation
  (`Publish.SharedNewSlugIsCreatedTwice`).

## Model

| member | source | states |
|---|---|---|
| `Configuration.LowerChar` | fabfile.py:61 | an upper-case ASCII letter becomes its lower-case partner (code point plus 32); any other character is kept |
| `Configuration.Lower` | fabfile.py:61 | lower-casing keeps the length and lower-cases each character on its own |
| `Configuration.LowerFixedIff` | fabfile.py:61 | a slug equals its lower-cased form exactly when it contains no upper-case ASCII letter |
| `Configuration.LowerAppend` | fabfile.py:61 | lower-casing works character by character: it distributes over concatenation |
| `Configuration.LowerIdempotent` | fabfile.py:61 | lower-casing an already lower-cased string changes nothing |
| `Configuration.CheckSlugs` | fabfile.py:60-62 | the slug loop passes iff every chapter's slug equals its lower-cased form; otherwise it stops at the first offending chapter and names its slug |
| `Configuration.ConfiguredSlugsAreLower` | fabfile.py:13-25 | the two configured chapters have lower-case slugs, as the note above the list requires, so the load-time slug check passes |
| `Configuration.AwsEnabled` | fabfile.py:65-73 | storage is enabled iff each of the three storage variables is present and non-empty |
| `Configuration.WordPressEnabled` | fabfile.py:84-100 | publishing is enabled iff each of the seven WordPress variables is present and non-empty |
| `Configuration.Load` | fabfile.py:60-100 | loading succeeds iff all slugs are lower case and the bucket variable is present; the slug failure comes first and names the first bad slug; on success both flags and the public host are those the environment dictates |
| `Storage.Split` | fabfile.py:122 | `split` yields at least one piece and no piece contains the separator |
| `Storage.JoinSplit` | fabfile.py:122 | joining the pieces of a split with the separator gives back the string |
| `Storage.SplitWhole` | fabfile.py:122 | a string splits into itself alone iff it contains no separator |
| `Storage.SplitAfterSegment` | fabfile.py:122 | a leading separator-free segment becomes the first piece of the split |
| `Storage.Basename` | fabfile.py:122 | the basename never contains `/` |
| `Storage.BasenameIsLastSegmentOf` | fabfile.py:122 | the basename is a suffix of the path, and it is the whole path or follows a `/` |
| `Storage.BasenameIsLastSegment` | fabfile.py:122 | `split('/')[-1]` is exactly the text after the last `/` (the whole string when there is none), both directions |
| `Storage.BasenameOfJoined` | fabfile.py:122 | whatever precedes the last `/` does not change the basename |
| `Storage.BasenameOfPlainName` | fabfile.py:122 | a name without `/` is its own basename |
| `Storage.OutputKey` | fabfile.py:121-123 | an output key splits into exactly the project folder and the file's basename |
| `Storage.AssetKey` | fabfile.py:126-128 | an asset key splits into exactly the project folder, `assets` and the file's basename |
| `Storage.KeysKeepBasename` | fabfile.py:121-128 | both keys keep the file's basename, so deriving a key from a key changes nothing |
| `Storage.KeyDeterminedByBasename` | fabfile.py:121-128 | two files get the same key iff their basenames are equal, whatever their folders |
| `Storage.OutputAndAssetKeysDiffer` | fabfile.py:121-128 | an output key never equals an asset key |
| `Storage.PublicUrl` | fabfile.py:116 | the public URL ends in the key's basename |
| `Storage.PublicUrlDeterminedByKey` | fabfile.py:116-118 | for one host, two uploads return the same URL iff they use the same key |
| `Storage.AssetKeyOfAssetUrl` | fabfile.py:116-128 | a property of the key and URL functions only (the script never derives a key from a URL): the asset key of an asset's public URL is that asset's key |
| `Images.RewrittenSrcs` | fabfile.py:133-134 | one new `src` per image, in order; the i-th is the URL of the i-th image's asset key |
| `Images.AssetUploads` | fabfile.py:133-134 | one upload per image, in document order; the i-th stores the i-th `src` under its asset key |
| `Images.ReplaceImagesWithS3Urls` | fabfile.py:131-135 | the array of `src` values is overwritten in place by their rewritten URLs, and the uploads made are exactly one per image in order |
| `Images.MarkdownToHtml` | fabfile.py:138-151 | with asset uploading on, the images are rewritten and uploaded; with it off, the document is returned unchanged and nothing is uploaded |
| `Images.RewriteIsIdempotent` | fabfile.py:133-134 | a property of the rewriting function only (the script never rewrites a rewritten document): rewriting rewritten sources reproduces them |
| `Publish.ExistingPageSlugs` | fabfile.py:215 | the slug list has one entry per page, its `post_name` (or none), in page order |
| `Publish.MatchingPages` | fabfile.py:218 | the filtered list holds exactly the snapshot pages named like the slug, and with `MatchingPagesStartAtFirstMatch` its first entry is the first such page, when there is one |
| `Publish.MatchingPagesStartAtFirstMatch` | fabfile.py:218-219 | the filtered list is non-empty iff some page carries the slug, and then `pages[0]` is the first page that does |
| `Publish.FirstMatch` | fabfile.py:218-219 | the position of the first page named like the slug, every page before it named otherwise |
| `Publish.PageSlugToId` | fabfile.py:217-220 | the lookup succeeds iff the slug list contains the slug, and then answers the `post_id` of the first matching page |
| `Publish.ChapterAction` | fabfile.py:226-238 | the call made for one chapter carries its HTML, and any call that is not an edit is a creation carrying the chapter's slug and title; `ChapterActionDecision` proves which call is made |
| `Publish.ChapterActionDecision` | fabfile.py:226-238 | a chapter's page is edited iff some snapshot page carries its slug, and then it is the first such page; otherwise a page is created with the chapter's slug, title and HTML |
| `Publish.PageUrl` | fabfile.py:240-242 | the URL is the base URL, `/`, the parent page slug, `/` and the chapter slug, in that order; `PageUrlEndsInSlug` proves its last segment is the slug |
| `Publish.PageUrlEndsInSlug` | fabfile.py:240-242 | the printed page URL ends in the chapter's slug, when the slug has no `/` |
| `Publish.PublishChapter` | fabfile.py:223-244 | one iteration: the chapter's image uploads, then its edit or creation, then its printed URL |
| `Publish.Wp` | fabfile.py:210-244 | for chapters that passed the import-time slug check, the loop produces exactly the effect log of the specification `WpEffects` |
| `Publish.WpPublishesEveryChapterOnce` | fabfile.py:213-238 | with publishing off nothing happens; with it on, the page list is fetched once and first, and there is exactly one page call per chapter, in order: an edit of the first matching page iff the snapshot lists the slug, otherwise a creation with the chapter's slug and title |
| `Publish.WpPageCalls` | fabfile.py:222-238 | the page calls in the log are exactly the per-chapter calls, in configured order |
| `Publish.WpReportsEveryPageUrl` | fabfile.py:240-243 | one printed URL per chapter, `<base>/<parent slug>/<slug>`, in order, whatever call was made |
| `Publish.DecisionUsesInitialSnapshotOnly` | fabfile.py:214-227 | the call for a chapter is the one a run with that chapter alone would make: earlier creations in the same run play no part |
| `Publish.SharedNewSlugIsCreatedTwice` | fabfile.py:214-238 | two chapters sharing a slug missing from the snapshot are both created |
| `Publish.WpUploadsEveryImage` | fabfile.py:222-224 | the uploads in the log are every image of every chapter, in chapter then document order |
| `Publish.UploadsIgnoreStorageFlag` | fabfile.py:223-224 | with storage disabled, publishing a chapter still uploads each of its images |
| `Outputs.OutputName` | fabfile.py:277-280 | each format's output file is one of the two names `clean` removes |
| `Outputs.OutputNamesArePlain` | fabfile.py:257 | an output name has no `/`, so its key is `python/<name>` |
| `Outputs.BuildOutput` | fabfile.py:247-271 | a build adds exactly its output file to the directory, and makes one upload and reports a URL iff storage is enabled; `BuildUploadsOnlyWithStorage` pins the key and URL |
| `Outputs.BuildUploadsOnlyWithStorage` | fabfile.py:247-271 | a build always leaves its output file and touches no other; it uploads that file under `python/<name>` and prints its URL exactly when storage is enabled |
| `Outputs.Existing` | fabfile.py:282-285 | the reported names are exactly the candidates that exist |
| `Outputs.Cleaned` | fabfile.py:277-285 | after `clean` a file remains iff it was there and is not a generated output |
| `Outputs.Clean` | fabfile.py:274-285 | the loop leaves the cleaned directory and reports the removed outputs in visiting order |
| `Outputs.CleanIsIdempotent` | fabfile.py:277-285 | after `clean` no output remains, so a second `clean` removes and changes nothing |
| `Outputs.CleanWithNoOutputs` | fabfile.py:282-285 | with no output present, `clean` deletes nothing and reports nothing |
| `Outputs.CleanRemovesOnlyTheEpub` | fabfile.py:282-285 | with only the EPUB present, `clean` removes exactly that file and reports it |
| `Outputs.CleanUndoesBuild` | fabfile.py:247-285 | building then cleaning leaves the directory as cleaning alone would |

## Left out

- The converter subprocess (`fabfile.py:143-148`, `fabfile.py:250-255`, `fabfile.py:263-269`) is external I/O. For `wp`, its output is the `imagesOf` parameter: the image sources of a chapter's HTML. For `epub`/`pdf`, it is only the appearance of the output file. The argument lists are not modelled.
- Reading the chapter files and `os.environ` are replaced by parameters: `imagesOf` and an environment map.
- The storage SDK calls (`fabfile.py:109-114`) are not modelled: connecting, writing the object and setting its ACL. An upload is recorded as (file, key); the object's contents and access policy are not modelled.
- The XML-RPC calls (`fabfile.py:154-204`) become log entries. Their arguments are recorded except the blog id, the credentials, the parent page id and the fixed page fields. Their results are not modelled. The page list is the `existingPages` parameter, and its 100000-page request limit is not modelled.
- The HTML parser and `prettify` (`fabfile.py:132`, `fabfile.py:135`) are a foreign library. A document is reduced to its image `src` values.
- Failures of external calls are not modelled: a missing image file, a failed upload, a converter error, a network error. Every call is taken to succeed, so the partial publication they leave behind is not modelled either.
- A page without `post_id` would raise `KeyError` at `fabfile.py:220`. Pages always carry an id in the model.
- Printing is modelled only where it carries the result: the page URLs of `wp`, the build's upload URL and the names `clean` removes. The notes and the "Result:" lines are left out.
- Lower-casing is ASCII only, not Python's full Unicode `str.lower()`.
- An `<img>` element without a `src` attribute raises `KeyError` at `fabfile.py:134`. A document is modelled as its list of `src` values, so it cannot express that case.
- The slug check is an `assert`, so `python -O` skips it. `Load` always performs it.
