/**
 * The `wp` task: publish every configured chapter to the blogging platform,
 * editing the page that already carries the chapter's slug or creating a new
 * one. The remote calls are recorded, in the order the task makes them, in a
 * log of effects; the list of existing pages is the snapshot that the single
 * `wp.getPosts` call returns.
 */
module Publish {
  import opened Wrappers
  import opened Configuration
  import opened Storage
  import opened Images

  /** A page as `wp.getPosts` reports it; `post_name` may be missing. */
  datatype RemotePage = RemotePage(postName: Option<string>, postId: string)

  /** What the task does to the outside world, one entry per call or printed URL. */
  datatype Effect =
    | FetchPages                                   // wp.getPosts
    | UploadFile(upload: Upload)                   // an asset upload to storage
    | EditPage(postId: string, html: Html)         // wp.editPost
    | NewPage(slug: string, title: string, html: Html)  // wp.newPost
    | Report(url: string)                          // the printed page URL

  // ---------------------------------------------------------------------
  // Looking up existing pages
  // ---------------------------------------------------------------------

  /** `[i.get('post_name') for i in existing_pages]` */
  function ExistingPageSlugs(pages: seq<RemotePage>): (slugs: seq<Option<string>>)
    ensures |slugs| == |pages|
    ensures forall i :: 0 <= i < |pages| ==> slugs[i] == pages[i].postName
  {
    if pages == [] then [] else [pages[0].postName] + ExistingPageSlugs(pages[1..])
  }

  /** `[i for i in existing_pages if i.get('post_name') == slug]` */
  function MatchingPages(pages: seq<RemotePage>, slug: string): (r: seq<RemotePage>)
    ensures |r| <= |pages|
    ensures forall p :: p in r <==> p in pages && p.postName == Some(slug)
  {
    if pages == [] then []
    else
      assert forall p :: p in pages <==> p == pages[0] || p in pages[1..];
      (if pages[0].postName == Some(slug) then [pages[0]] else []) + MatchingPages(pages[1..], slug)
  }

  /** The position of the first page named `slug`, or `|pages|` when there is none. */
  function FirstMatch(pages: seq<RemotePage>, slug: string): (k: nat)
    ensures k <= |pages|
    ensures forall j :: 0 <= j < k ==> pages[j].postName != Some(slug)
    ensures k < |pages| ==> pages[k].postName == Some(slug)
  {
    if pages == [] || pages[0].postName == Some(slug) then 0 else 1 + FirstMatch(pages[1..], slug)
  }

  lemma {:induction false} MatchingPagesStartAtFirstMatch(pages: seq<RemotePage>, slug: string)
    ensures |MatchingPages(pages, slug)| > 0 <==> FirstMatch(pages, slug) < |pages|
    ensures |MatchingPages(pages, slug)| > 0 ==>
              MatchingPages(pages, slug)[0] == pages[FirstMatch(pages, slug)]
  {
    if pages != [] {
      MatchingPagesStartAtFirstMatch(pages[1..], slug);
    }
  }

  /**
   * `page_slug_to_id`: the `post_id` of the first page named `slug`. `None`
   * stands for the `IndexError` of `pages[0]`, which happens exactly when no
   * page carries the slug.
   */
  function PageSlugToId(pages: seq<RemotePage>, slug: string): (id: Option<string>)
    ensures id.Some? <==> Some(slug) in ExistingPageSlugs(pages)
    ensures id.Some? ==> FirstMatch(pages, slug) < |pages| && id.value == pages[FirstMatch(pages, slug)].postId
  {
    MatchingPagesStartAtFirstMatch(pages, slug);
    var k := FirstMatch(pages, slug);
    assert k < |pages| ==> ExistingPageSlugs(pages)[k] == Some(slug);
    var matching := MatchingPages(pages, slug);
    if |matching| == 0 then None else Some(matching[0].postId)
  }

  /**
   * The call made for one chapter, given the snapshot. The id lookup is reached
   * only when the slug is listed, so it always succeeds.
   */
  function ChapterAction(pages: seq<RemotePage>, chapter: Chapter, html: Html): (e: Effect)
    ensures !e.EditPage? ==> e == NewPage(chapter.slug, chapter.title, html)
    ensures e.EditPage? ==> e.html == html
  {
    if Some(chapter.slug) in ExistingPageSlugs(pages) then
      EditPage(PageSlugToId(pages, chapter.slug).value, html)
    else
      NewPage(chapter.slug, chapter.title, html)
  }

  /**
   * A chapter's page is edited iff some page in the snapshot carries its slug,
   * and then it is the first such page; otherwise a page is created with the
   * chapter's slug and title. Both calls carry the chapter's HTML.
   */
  lemma ChapterActionDecision(pages: seq<RemotePage>, chapter: Chapter, html: Html)
    ensures var e := ChapterAction(pages, chapter, html);
            && (e.EditPage? <==> exists k :: 0 <= k < |pages| && pages[k].postName == Some(chapter.slug))
            && (e.EditPage? ==> e == EditPage(pages[FirstMatch(pages, chapter.slug)].postId, html))
            && (!e.EditPage? ==> e == NewPage(chapter.slug, chapter.title, html))
  {
    if Some(chapter.slug) in ExistingPageSlugs(pages) {
      var k :| 0 <= k < |pages| && ExistingPageSlugs(pages)[k] == Some(chapter.slug);
    }
  }

  /** The page URL printed for a chapter: base URL, parent page slug, chapter slug. */
  function PageUrl(baseUrl: string, parentSlug: string, slug: string): (url: string)
    ensures |url| == |baseUrl| + |parentSlug| + |slug| + 2
    ensures url[..|baseUrl|] == baseUrl && url[|url| - |slug|..] == slug
    ensures url[|baseUrl|] == '/' && url[|url| - |slug| - 1] == '/'
    ensures url[|baseUrl| + 1..|url| - |slug| - 1] == parentSlug
  {
    baseUrl + "/" + parentSlug + "/" + slug
  }

  /** The printed URL ends in the chapter's slug. */
  lemma PageUrlEndsInSlug(baseUrl: string, parentSlug: string, slug: string)
    requires '/' !in slug
    ensures Basename(PageUrl(baseUrl, parentSlug, slug)) == slug
  {
    assert PageUrl(baseUrl, parentSlug, slug) == (baseUrl + "/" + parentSlug) + ['/'] + slug;
    BasenameOfJoined(baseUrl + "/" + parentSlug, slug);
    BasenameOfPlainName(slug);
  }

  // ---------------------------------------------------------------------
  // The task as a specification
  // ---------------------------------------------------------------------

  predicate PublishingReady(s: Settings) {
    s.Loaded() && s.wordPressEnabled
  }

  /** The URL printed for a chapter, from the configured base URL and parent page slug. */
  function ChapterUrl(s: Settings, chapter: Chapter): string
    requires PublishingReady(s)
  {
    PageUrl(s.env[WordPressBaseUrl], s.env[WordPressParentPageSlug], chapter.slug)
  }

  /** The uploads as log entries. */
  function UploadEffects(uploads: seq<Upload>): (log: seq<Effect>)
    ensures |log| == |uploads|
    ensures forall i :: 0 <= i < |uploads| ==> log[i] == UploadFile(uploads[i])
  {
    if uploads == [] then [] else [UploadFile(uploads[0])] + UploadEffects(uploads[1..])
  }

  /** The HTML published for a chapter: its converted images, rewritten. */
  function ChapterHtml(s: Settings, chapter: Chapter, imagesOf: string -> Html): Html {
    RewrittenSrcs(s.s3PublicUrl, imagesOf(chapter.file))
  }

  /** One loop iteration: convert (uploading images), edit or create, print the URL. */
  function ChapterEffects(s: Settings, pages: seq<RemotePage>, chapter: Chapter,
                          imagesOf: string -> Html): seq<Effect>
    requires PublishingReady(s)
  {
    UploadEffects(AssetUploads(imagesOf(chapter.file)))
    + [ChapterAction(pages, chapter, ChapterHtml(s, chapter, imagesOf)),
       Report(ChapterUrl(s, chapter))]
  }

  function ChaptersEffects(s: Settings, pages: seq<RemotePage>, chapters: seq<Chapter>,
                           imagesOf: string -> Html): seq<Effect>
    requires PublishingReady(s)
    decreases |chapters|
  {
    if chapters == [] then []
    else ChaptersEffects(s, pages, chapters[..|chapters| - 1], imagesOf)
         + ChapterEffects(s, pages, chapters[|chapters| - 1], imagesOf)
  }

  /** Everything the task does: nothing when publishing is off. */
  function WpEffects(s: Settings, pages: seq<RemotePage>, chapters: seq<Chapter>,
                     imagesOf: string -> Html): seq<Effect>
    requires s.Loaded()
  {
    if s.wordPressEnabled then [FetchPages] + ChaptersEffects(s, pages, chapters, imagesOf) else []
  }

  // ---------------------------------------------------------------------
  // The task as a loop
  // ---------------------------------------------------------------------

  /**
   * One iteration of the loop in `wp`: convert the chapter with image
   * uploading on, edit or create its page, print its URL.
   */
  method PublishChapter(s: Settings, existingPages: seq<RemotePage>,
                        existingPageSlugs: seq<Option<string>>, chapter: Chapter,
                        imagesOf: string -> Html) returns (effects: seq<Effect>)
    requires PublishingReady(s)
    requires existingPageSlugs == ExistingPageSlugs(existingPages)
    ensures effects == ChapterEffects(s, existingPages, chapter, imagesOf)
  {
    var html, uploads := MarkdownToHtml(s.s3PublicUrl, imagesOf(chapter.file), true);
    var action;
    if Some(chapter.slug) in existingPageSlugs {
      var pageId := PageSlugToId(existingPages, chapter.slug);
      action := EditPage(pageId.value, html);
    } else {
      action := NewPage(chapter.slug, chapter.title, html);
    }
    var pageUrl := ChapterUrl(s, chapter);
    effects := UploadEffects(uploads) + [action, Report(pageUrl)];
  }

  /**
   * `wp`: `existingPages` is what `wp.getPosts` returns; `imagesOf` gives the
   * image sources of the converter's HTML for a chapter file.
   */
  method Wp(s: Settings, chapters: seq<Chapter>, existingPages: seq<RemotePage>,
            imagesOf: string -> Html) returns (log: seq<Effect>)
    requires s.Loaded()
    requires AllSlugsLower(chapters)  // the import-time slug check has passed
    ensures log == WpEffects(s, existingPages, chapters, imagesOf)
  {
    log := [];
    if s.wordPressEnabled {
      var existingPageSlugs := ExistingPageSlugs(existingPages);
      var published: seq<Effect> := [];
      var i := 0;
      while i < |chapters|
        invariant 0 <= i <= |chapters|
        invariant published == ChaptersEffects(s, existingPages, chapters[..i], imagesOf)
      {
        var effects := PublishChapter(s, existingPages, existingPageSlugs, chapters[i], imagesOf);
        assert chapters[..i + 1][..i] == chapters[..i];
        published := published + effects;
        i := i + 1;
      }
      assert chapters[..i] == chapters;
      log := [FetchPages] + published;
    }
  }

  // ---------------------------------------------------------------------
  // What the log says
  // ---------------------------------------------------------------------

  datatype Kind = FetchKind | UploadKind | PageKind | ReportKind

  function KindOf(e: Effect): Kind {
    match e
    case FetchPages => FetchKind
    case UploadFile(_) => UploadKind
    case EditPage(_, _) => PageKind
    case NewPage(_, _, _) => PageKind
    case Report(_) => ReportKind
  }

  /** The entries of one kind, in log order. */
  function OfKind(log: seq<Effect>, k: Kind): seq<Effect> {
    if log == [] then []
    else (if KindOf(log[0]) == k then [log[0]] else []) + OfKind(log[1..], k)
  }

  lemma {:induction false} OfKindAppend(a: seq<Effect>, b: seq<Effect>, k: Kind)
    ensures OfKind(a + b, k) == OfKind(a, k) + OfKind(b, k)
  {
    if a == [] {
      assert a + b == b;
    } else {
      var head := if KindOf(a[0]) == k then [a[0]] else [];
      assert (a + b)[0] == a[0];
      assert (a + b)[1..] == a[1..] + b;
      assert OfKind(a + b, k) == head + OfKind(a[1..] + b, k);
      OfKindAppend(a[1..], b, k);
      assert OfKind(a, k) == head + OfKind(a[1..], k);
    }
  }

  lemma {:induction false} OfKindUploads(uploads: seq<Upload>, k: Kind)
    ensures OfKind(UploadEffects(uploads), k) == if k == UploadKind then UploadEffects(uploads) else []
  {
    if uploads != [] {
      OfKindUploads(uploads[1..], k);
    }
  }

  /** A loop iteration's entries, sorted by kind. */
  lemma OfKindStep(uploads: seq<Upload>, call: Effect, report: Effect, k: Kind)
    requires KindOf(call) == PageKind && KindOf(report) == ReportKind
    ensures OfKind(UploadEffects(uploads) + [call, report], k)
            == (if k == UploadKind then UploadEffects(uploads) else [])
               + (if k == PageKind then [call] else [])
               + (if k == ReportKind then [report] else [])
  {
    OfKindAppend(UploadEffects(uploads), [call, report], k);
    OfKindUploads(uploads, k);
    assert [call, report][1..] == [report];
    assert [report][1..] == [];
    assert OfKind([report], k) == (if k == ReportKind then [report] else []);
    assert OfKind([call, report], k) == (if k == PageKind then [call] else []) + OfKind([report], k);
  }

  /** One chapter contributes its uploads, one page call and one URL. */
  lemma ChapterEffectsByKind(s: Settings, pages: seq<RemotePage>, chapter: Chapter,
                             imagesOf: string -> Html, k: Kind)
    requires PublishingReady(s)
    ensures OfKind(ChapterEffects(s, pages, chapter, imagesOf), k)
            == (if k == UploadKind then UploadEffects(AssetUploads(imagesOf(chapter.file))) else [])
               + (if k == PageKind then [ChapterAction(pages, chapter, ChapterHtml(s, chapter, imagesOf))] else [])
               + (if k == ReportKind
                  then [Report(ChapterUrl(s, chapter))]
                  else [])
  {
    var call := ChapterAction(pages, chapter, ChapterHtml(s, chapter, imagesOf));
    var report := Report(ChapterUrl(s, chapter));
    OfKindStep(AssetUploads(imagesOf(chapter.file)), call, report, k);
  }

  /** The page call made for each chapter, in configured order. */
  function PageCalls(s: Settings, pages: seq<RemotePage>, chapters: seq<Chapter>,
                     imagesOf: string -> Html): (calls: seq<Effect>)
    ensures |calls| == |chapters|
    ensures forall i :: 0 <= i < |chapters| ==>
              calls[i] == ChapterAction(pages, chapters[i], ChapterHtml(s, chapters[i], imagesOf))
  {
    seq(|chapters|, i requires 0 <= i < |chapters| =>
      ChapterAction(pages, chapters[i], ChapterHtml(s, chapters[i], imagesOf)))
  }

  /** The page calls of the loop: one per chapter, in configured order. */
  lemma {:induction false} ChaptersPageCalls(s: Settings, pages: seq<RemotePage>,
                                             chapters: seq<Chapter>, imagesOf: string -> Html)
    requires PublishingReady(s)
    ensures OfKind(ChaptersEffects(s, pages, chapters, imagesOf), PageKind)
            == PageCalls(s, pages, chapters, imagesOf)
    decreases |chapters|
  {
    if chapters != [] {
      var n := |chapters| - 1;
      var prefix := ChaptersEffects(s, pages, chapters[..n], imagesOf);
      var last := ChapterEffects(s, pages, chapters[n], imagesOf);
      assert ChaptersEffects(s, pages, chapters, imagesOf) == prefix + last;
      ChaptersPageCalls(s, pages, chapters[..n], imagesOf);
      ChapterEffectsByKind(s, pages, chapters[n], imagesOf, PageKind);
      OfKindAppend(prefix, last, PageKind);
      PageCallsSnoc(s, pages, chapters, imagesOf);
    }
  }

  lemma PageCallsSnoc(s: Settings, pages: seq<RemotePage>, chapters: seq<Chapter>,
                      imagesOf: string -> Html)
    requires chapters != []
    ensures PageCalls(s, pages, chapters, imagesOf)
            == PageCalls(s, pages, chapters[..|chapters| - 1], imagesOf)
               + [ChapterAction(pages, chapters[|chapters| - 1],
                                ChapterHtml(s, chapters[|chapters| - 1], imagesOf))]
  {
    var n := |chapters| - 1;
    var all, front := PageCalls(s, pages, chapters, imagesOf), PageCalls(s, pages, chapters[..n], imagesOf);
    var last := ChapterAction(pages, chapters[n], ChapterHtml(s, chapters[n], imagesOf));
    forall i | 0 <= i < |all|
      ensures all[i] == (front + [last])[i]
    {
      if i < n {
        assert chapters[..n][i] == chapters[i];
      }
    }
    assert all == front + [last];
  }

  /** The URL printed for each chapter, in configured order. */
  function PageReports(s: Settings, chapters: seq<Chapter>): (urls: seq<Effect>)
    requires PublishingReady(s)
    ensures |urls| == |chapters|
    ensures forall i :: 0 <= i < |chapters| ==>
              urls[i] == Report(ChapterUrl(s, chapters[i]))
  {
    seq(|chapters|, i requires 0 <= i < |chapters| =>
      Report(ChapterUrl(s, chapters[i])))
  }

  lemma PageReportsSnoc(s: Settings, chapters: seq<Chapter>)
    requires PublishingReady(s) && chapters != []
    ensures PageReports(s, chapters)
            == PageReports(s, chapters[..|chapters| - 1])
               + [Report(ChapterUrl(s, chapters[|chapters| - 1]))]
  {
  }

  /** The URLs printed by the loop: one per chapter, in configured order. */
  lemma {:induction false} ChaptersReports(s: Settings, pages: seq<RemotePage>,
                                           chapters: seq<Chapter>, imagesOf: string -> Html)
    requires PublishingReady(s)
    ensures OfKind(ChaptersEffects(s, pages, chapters, imagesOf), ReportKind) == PageReports(s, chapters)
    decreases |chapters|
  {
    if chapters != [] {
      var n := |chapters| - 1;
      var prefix := ChaptersEffects(s, pages, chapters[..n], imagesOf);
      var last := ChapterEffects(s, pages, chapters[n], imagesOf);
      assert ChaptersEffects(s, pages, chapters, imagesOf) == prefix + last;
      ChaptersReports(s, pages, chapters[..n], imagesOf);
      ChapterEffectsByKind(s, pages, chapters[n], imagesOf, ReportKind);
      OfKindAppend(prefix, last, ReportKind);
      PageReportsSnoc(s, chapters);
    }
  }

  /** The loop never fetches the page list again. */
  lemma {:induction false} ChaptersNeverFetch(s: Settings, pages: seq<RemotePage>,
                                              chapters: seq<Chapter>, imagesOf: string -> Html)
    requires PublishingReady(s)
    ensures OfKind(ChaptersEffects(s, pages, chapters, imagesOf), FetchKind) == []
    decreases |chapters|
  {
    if chapters != [] {
      var n := |chapters| - 1;
      ChaptersNeverFetch(s, pages, chapters[..n], imagesOf);
      ChapterEffectsByKind(s, pages, chapters[n], imagesOf, FetchKind);
      OfKindAppend(ChaptersEffects(s, pages, chapters[..n], imagesOf),
                   ChapterEffects(s, pages, chapters[n], imagesOf), FetchKind);
    }
  }

  /** With publishing on, the log is the fetch followed by the loop's entries. */
  lemma {:induction false} WpEffectsByKind(s: Settings, pages: seq<RemotePage>, chapters: seq<Chapter>,
                                           imagesOf: string -> Html, k: Kind)
    requires PublishingReady(s)
    ensures OfKind(WpEffects(s, pages, chapters, imagesOf), k)
            == (if k == FetchKind then [FetchPages] else []) + OfKind(ChaptersEffects(s, pages, chapters, imagesOf), k)
  {
    var body := ChaptersEffects(s, pages, chapters, imagesOf);
    assert WpEffects(s, pages, chapters, imagesOf) == [FetchPages] + body;
    OfKindAppend([FetchPages], body, k);
    assert [FetchPages][1..] == [];
    assert OfKind([FetchPages], k) == (if k == FetchKind then [FetchPages] else []) + OfKind([], k);
  }

  /**
   * With publishing on, the task fetches the page list once, before anything
   * else, then makes exactly one page call per chapter, in configured order:
   * an edit of the first page named like the chapter's slug when the snapshot
   * lists that slug, otherwise a creation with the chapter's slug and title.
   * With publishing off it does nothing at all.
   */
  lemma WpPublishesEveryChapterOnce(s: Settings, pages: seq<RemotePage>,
                                    chapters: seq<Chapter>, imagesOf: string -> Html)
    requires s.Loaded()
    ensures !s.wordPressEnabled ==> WpEffects(s, pages, chapters, imagesOf) == []
    ensures s.wordPressEnabled ==>
              && WpEffects(s, pages, chapters, imagesOf)[0] == FetchPages
              && OfKind(WpEffects(s, pages, chapters, imagesOf), FetchKind) == [FetchPages]
    ensures s.wordPressEnabled ==>
              var calls := OfKind(WpEffects(s, pages, chapters, imagesOf), PageKind);
              && |calls| == |chapters|
              && forall i :: 0 <= i < |chapters| ==>
                   && (calls[i].EditPage? <==> Some(chapters[i].slug) in ExistingPageSlugs(pages))
                   && (calls[i].EditPage? ==>
                         calls[i] == EditPage(pages[FirstMatch(pages, chapters[i].slug)].postId,
                                              ChapterHtml(s, chapters[i], imagesOf)))
                   && (!calls[i].EditPage? ==>
                         calls[i] == NewPage(chapters[i].slug, chapters[i].title,
                                             ChapterHtml(s, chapters[i], imagesOf)))
  {
    if s.wordPressEnabled {
      var body := ChaptersEffects(s, pages, chapters, imagesOf);
      ChaptersPageCalls(s, pages, chapters, imagesOf);
      ChaptersNeverFetch(s, pages, chapters, imagesOf);
      WpEffectsByKind(s, pages, chapters, imagesOf, FetchKind);
      WpEffectsByKind(s, pages, chapters, imagesOf, PageKind);
      forall i | 0 <= i < |chapters|
        ensures Some(chapters[i].slug) in ExistingPageSlugs(pages)
                <==> exists k :: 0 <= k < |pages| && pages[k].postName == Some(chapters[i].slug)
      {
        if Some(chapters[i].slug) in ExistingPageSlugs(pages) {
          var k :| 0 <= k < |pages| && ExistingPageSlugs(pages)[k] == Some(chapters[i].slug);
        }
      }
    }
  }

  /** Every chapter's page URL is printed, in configured order, whatever call was made. */
  lemma WpReportsEveryPageUrl(s: Settings, pages: seq<RemotePage>,
                              chapters: seq<Chapter>, imagesOf: string -> Html)
    requires PublishingReady(s)
    ensures var urls := OfKind(WpEffects(s, pages, chapters, imagesOf), ReportKind);
            && |urls| == |chapters|
            && forall i :: 0 <= i < |chapters| ==>
                 urls[i] == Report(ChapterUrl(s, chapters[i]))
  {
    ChaptersReports(s, pages, chapters, imagesOf);
    WpEffectsByKind(s, pages, chapters, imagesOf, ReportKind);
    assert OfKind(WpEffects(s, pages, chapters, imagesOf), ReportKind) == PageReports(s, chapters);
  }

  /** With publishing on, the page calls of the task are those of its loop. */
  lemma WpPageCalls(s: Settings, pages: seq<RemotePage>, chapters: seq<Chapter>,
                    imagesOf: string -> Html)
    requires PublishingReady(s)
    ensures OfKind(WpEffects(s, pages, chapters, imagesOf), PageKind) == PageCalls(s, pages, chapters, imagesOf)
  {
    ChaptersPageCalls(s, pages, chapters, imagesOf);
    WpEffectsByKind(s, pages, chapters, imagesOf, PageKind);
  }

  /**
   * The snapshot is never refreshed: the call made for a chapter is the one
   * the task would make if that chapter were the only one, so pages created
   * earlier in the same run play no part in the decision.
   */
  lemma DecisionUsesInitialSnapshotOnly(s: Settings, pages: seq<RemotePage>,
                                        chapters: seq<Chapter>, imagesOf: string -> Html, i: nat)
    requires PublishingReady(s) && i < |chapters|
    ensures |OfKind(WpEffects(s, pages, chapters, imagesOf), PageKind)| == |chapters|
    ensures OfKind(WpEffects(s, pages, [chapters[i]], imagesOf), PageKind) ==
            [OfKind(WpEffects(s, pages, chapters, imagesOf), PageKind)[i]]
  {
    WpPageCalls(s, pages, chapters, imagesOf);
    WpPageCalls(s, pages, [chapters[i]], imagesOf);
  }

  /**
   * A consequence of the stale snapshot: two chapters sharing a slug that the
   * snapshot lacks both lead to a creation, giving two pages with that slug.
   */
  lemma SharedNewSlugIsCreatedTwice(s: Settings, pages: seq<RemotePage>, chapter: Chapter,
                                    imagesOf: string -> Html)
    requires PublishingReady(s)
    requires forall k :: 0 <= k < |pages| ==> pages[k].postName != Some(chapter.slug)
    ensures var create := NewPage(chapter.slug, chapter.title, ChapterHtml(s, chapter, imagesOf));
            OfKind(WpEffects(s, pages, [chapter, chapter], imagesOf), PageKind) == [create, create]
  {
    WpPageCalls(s, pages, [chapter, chapter], imagesOf);
    ChapterActionDecision(pages, chapter, ChapterHtml(s, chapter, imagesOf));
  }

  /** Every image of every chapter, chapter by chapter and in document order. */
  function AllAssetUploads(chapters: seq<Chapter>, imagesOf: string -> Html): seq<Upload>
    decreases |chapters|
  {
    if chapters == [] then []
    else AllAssetUploads(chapters[..|chapters| - 1], imagesOf)
         + AssetUploads(imagesOf(chapters[|chapters| - 1].file))
  }

  lemma UploadEffectsAppend(a: seq<Upload>, b: seq<Upload>)
    ensures UploadEffects(a + b) == UploadEffects(a) + UploadEffects(b)
  {
  }

  lemma {:induction false} ChaptersUploads(s: Settings, pages: seq<RemotePage>,
                                           chapters: seq<Chapter>, imagesOf: string -> Html)
    requires PublishingReady(s)
    ensures OfKind(ChaptersEffects(s, pages, chapters, imagesOf), UploadKind)
            == UploadEffects(AllAssetUploads(chapters, imagesOf))
    decreases |chapters|
  {
    if chapters != [] {
      var n := |chapters| - 1;
      ChaptersUploads(s, pages, chapters[..n], imagesOf);
      ChapterEffectsByKind(s, pages, chapters[n], imagesOf, UploadKind);
      OfKindAppend(ChaptersEffects(s, pages, chapters[..n], imagesOf),
                   ChapterEffects(s, pages, chapters[n], imagesOf), UploadKind);
      UploadEffectsAppend(AllAssetUploads(chapters[..n], imagesOf), AssetUploads(imagesOf(chapters[n].file)));
    }
  }

  /**
   * The task uploads every image of every chapter, one upload per image, in
   * chapter order and then document order. Nothing here depends on the storage
   * flag: the task asks for asset uploads even when storage is disabled.
   */
  lemma WpUploadsEveryImage(s: Settings, pages: seq<RemotePage>, chapters: seq<Chapter>,
                            imagesOf: string -> Html)
    requires PublishingReady(s)
    ensures OfKind(WpEffects(s, pages, chapters, imagesOf), UploadKind)
            == UploadEffects(AllAssetUploads(chapters, imagesOf))
  {
    ChaptersUploads(s, pages, chapters, imagesOf);
    WpEffectsByKind(s, pages, chapters, imagesOf, UploadKind);
  }

  /** With storage disabled, publishing one chapter still uploads each of its images. */
  lemma UploadsIgnoreStorageFlag(s: Settings, pages: seq<RemotePage>, chapter: Chapter,
                                 imagesOf: string -> Html)
    requires PublishingReady(s) && !s.awsEnabled
    ensures |OfKind(WpEffects(s, pages, [chapter], imagesOf), UploadKind)| == |imagesOf(chapter.file)|
  {
    WpUploadsEveryImage(s, pages, [chapter], imagesOf);
    assert [chapter][..0] == [];
  }
}
