/**
 * The configuration block of the publishing script: the project names, the
 * configured chapters, the load-time check that every slug is lower case, and
 * the two integration flags derived from the process environment.
 */
module Configuration {
  import opened Wrappers

  const ShortProjectName: string := "python"
  const FullProjectName: string := "byte_of_" + ShortProjectName

  /** One configured chapter: its Markdown file, its page slug and its title. */
  datatype Chapter = Chapter(file: string, slug: string, title: string)

  /** The chapters, in the order they are published and converted. */
  const MarkdownFiles: seq<Chapter> := [
    Chapter("01-frontpage.md", FrontPageSlug, "Python"),
    Chapter("02-table-of-contents.md", ContentsSlug, "Table of Contents of A Byte of Python")
  ]

  const FrontPageSlug: string := "python"
  const ContentsSlug: string := "python_en-table_of_contents"

  // ---------------------------------------------------------------------
  // Lower-casing (ASCII only) and the slug check
  // ---------------------------------------------------------------------

  predicate IsUpperAscii(c: char) {
    'A' <= c <= 'Z'
  }

  function LowerChar(c: char): (r: char)
    ensures !IsUpperAscii(r)
    ensures IsUpperAscii(c) ==> r as int == c as int + 32
    ensures !IsUpperAscii(c) ==> r == c
  {
    if IsUpperAscii(c) then (c as int - 'A' as int + 'a' as int) as char else c
  }

  /** `s.lower()` restricted to ASCII letters. */
  function Lower(s: string): (r: string)
    ensures |r| == |s|
    ensures forall i :: 0 <= i < |s| ==> r[i] == LowerChar(s[i])
  {
    if s == [] then [] else [LowerChar(s[0])] + Lower(s[1..])
  }

  /** A string equals its lower-cased form exactly when it has no upper-case letter. */
  lemma {:induction false} LowerFixedIff(s: string)
    ensures Lower(s) == s <==> forall i :: 0 <= i < |s| ==> !IsUpperAscii(s[i])
  {
    if s != [] {
      LowerFixedIff(s[1..]);
      assert s == [s[0]] + s[1..];
    }
  }

  /** Lower-casing works character by character, so it distributes over concatenation. */
  lemma LowerAppend(a: string, b: string)
    ensures Lower(a + b) == Lower(a) + Lower(b)
  {
    var whole, parts := Lower(a + b), Lower(a) + Lower(b);
    forall i | 0 <= i < |a + b|
      ensures whole[i] == parts[i]
    {
      if i < |a| {
        assert (a + b)[i] == a[i];
      } else {
        assert (a + b)[i] == b[i - |a|];
      }
    }
  }

  /** Lower-casing twice is lower-casing once. */
  lemma LowerIdempotent(s: string)
    ensures Lower(Lower(s)) == Lower(s)
  {
    LowerFixedIff(Lower(s));
  }

  predicate SlugIsLower(slug: string) {
    Lower(slug) == slug
  }

  predicate AllSlugsLower(chapters: seq<Chapter>) {
    forall i :: 0 <= i < |chapters| ==> SlugIsLower(chapters[i].slug)
  }

  /** The configured chapters pass the load-time slug check. */
  lemma ConfiguredSlugsAreLower()
    ensures AllSlugsLower(MarkdownFiles)
  {
    SlugWithoutCapitals(FrontPageSlug);
    SlugWithoutCapitals(ContentsSlug);
    TwoLowerSlugs(MarkdownFiles[0], MarkdownFiles[1]);
    assert MarkdownFiles == [MarkdownFiles[0], MarkdownFiles[1]];
  }

  lemma TwoLowerSlugs(first: Chapter, second: Chapter)
    requires SlugIsLower(first.slug) && SlugIsLower(second.slug)
    ensures AllSlugsLower([first, second])
  {
  }

  lemma SlugWithoutCapitals(slug: string)
    requires forall i :: 0 <= i < |slug| ==> !IsUpperAscii(slug[i])
    ensures SlugIsLower(slug)
  {
    LowerFixedIff(slug);
  }

  /**
   * The load-time loop over the chapters: it stops at the first chapter whose
   * slug differs from its lower-cased form and returns that slug.
   */
  method CheckSlugs(chapters: seq<Chapter>) returns (bad: Option<string>)
    ensures bad == None <==> AllSlugsLower(chapters)
    ensures bad.Some? ==> exists k :: 0 <= k < |chapters| && bad.value == chapters[k].slug
                            && !SlugIsLower(chapters[k].slug) && AllSlugsLower(chapters[..k])
  {
    var i := 0;
    while i < |chapters|
      invariant 0 <= i <= |chapters|
      invariant AllSlugsLower(chapters[..i])
    {
      if Lower(chapters[i].slug) != chapters[i].slug {
        return Some(chapters[i].slug);
      }
      i := i + 1;
    }
    assert chapters[..i] == chapters;
    return None;
  }

  // ---------------------------------------------------------------------
  // The environment and the integration flags
  // ---------------------------------------------------------------------

  type Environment = map<string, string>

  const AwsAccessKeyId: string := "AWS_ACCESS_KEY_ID"
  const AwsSecretAccessKey: string := "AWS_SECRET_ACCESS_KEY"
  const AwsS3BucketName: string := "AWS_S3_BUCKET_NAME"

  const WordPressRpcUrl: string := "WORDPRESS_RPC_URL"
  const WordPressBaseUrl: string := "WORDPRESS_BASE_URL"
  const WordPressBlogId: string := "WORDPRESS_BLOG_ID"
  const WordPressUsername: string := "WORDPRESS_USERNAME"
  const WordPressPassword: string := "WORDPRESS_PASSWORD"
  const WordPressParentPageId: string := "WORDPRESS_PARENT_PAGE_ID"
  const WordPressParentPageSlug: string := "WORDPRESS_PARENT_PAGE_SLUG"

  const AwsVariables: seq<string> := [AwsAccessKeyId, AwsSecretAccessKey, AwsS3BucketName]
  const WordPressVariables: seq<string> :=
    [WordPressRpcUrl, WordPressBaseUrl, WordPressBlogId, WordPressUsername,
     WordPressPassword, WordPressParentPageId, WordPressParentPageSlug]

  /** `os.environ.get(name) is not None and len(os.environ[name]) > 0` */
  predicate IsSet(env: Environment, name: string) {
    name in env && |env[name]| > 0
  }

  /** The storage integration is on iff each of its three variables is set. */
  function AwsEnabled(env: Environment): (enabled: bool)
    ensures enabled <==> forall name :: name in AwsVariables ==> IsSet(env, name)
  {
    IsSet(env, AwsAccessKeyId) && IsSet(env, AwsSecretAccessKey) && IsSet(env, AwsS3BucketName)
  }

  /** The publishing integration is on iff each of its seven variables is set. */
  function WordPressEnabled(env: Environment): (enabled: bool)
    ensures enabled <==> forall name :: name in WordPressVariables ==> IsSet(env, name)
  {
    IsSet(env, WordPressRpcUrl) && IsSet(env, WordPressBaseUrl) && IsSet(env, WordPressBlogId)
    && IsSet(env, WordPressUsername) && IsSet(env, WordPressPassword)
    && IsSet(env, WordPressParentPageId) && IsSet(env, WordPressParentPageSlug)
  }

  // ---------------------------------------------------------------------
  // Loading the configuration
  // ---------------------------------------------------------------------

  /** What the module-level code leaves behind once it has run. */
  datatype Settings = Settings(env: Environment, awsEnabled: bool, s3PublicUrl: string,
                               wordPressEnabled: bool)
  {
    /** The flags and the public host are those the environment dictates. */
    predicate Loaded() {
      && awsEnabled == AwsEnabled(env)
      && wordPressEnabled == WordPressEnabled(env)
      && AwsS3BucketName in env
      && s3PublicUrl == env[AwsS3BucketName]
    }
  }

  datatype LoadError =
    | SlugNotLowerCase(slug: string)   // the failed `assert` of the slug loop
    | MissingVariable(name: string)    // the `KeyError` of `os.environ[name]`

  /**
   * Running the module-level code: the slug check first, then the storage flag,
   * then the public host (read from the bucket variable whether or not storage
   * is enabled), then the publishing flag.
   */
  method Load(env: Environment, chapters: seq<Chapter>) returns (r: Result<Settings, LoadError>)
    ensures r.Ok? <==> AllSlugsLower(chapters) && AwsS3BucketName in env
    ensures r.Ok? ==> r.value.env == env && r.value.Loaded()
    ensures !AllSlugsLower(chapters) ==>
              r.Err? && r.error.SlugNotLowerCase?
              && exists k :: 0 <= k < |chapters| && r.error.slug == chapters[k].slug
                   && !SlugIsLower(chapters[k].slug) && AllSlugsLower(chapters[..k])
    ensures AllSlugsLower(chapters) && AwsS3BucketName !in env ==>
              r == Err(MissingVariable(AwsS3BucketName))
  {
    var bad := CheckSlugs(chapters);
    if bad.Some? {
      return Err(SlugNotLowerCase(bad.value));
    }
    var awsEnabled := AwsEnabled(env);
    if AwsS3BucketName !in env {
      return Err(MissingVariable(AwsS3BucketName));
    }
    var s3PublicUrl := env[AwsS3BucketName];
    var wordPressEnabled := WordPressEnabled(env);
    return Ok(Settings(env, awsEnabled, s3PublicUrl, wordPressEnabled));
  }
}
