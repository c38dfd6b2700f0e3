/**
 * Object-storage keys and public URLs. The SDK calls that store the file and
 * set its access policy are not modelled; an upload is recorded as the pair
 * (local file, key) and answers with a URL built from the key.
 */
module Storage {
  import opened Configuration

  // ---------------------------------------------------------------------
  // Python's `str.split(sep)` and `sep.join(parts)`
  // ---------------------------------------------------------------------

  /** `s.split(sep)`: the pieces between separators; at least one, none holding `sep`. */
  function Split(s: string, sep: char): (parts: seq<string>)
    ensures |parts| >= 1
    ensures forall i :: 0 <= i < |parts| ==> sep !in parts[i]
  {
    if s == [] then [[]]
    else
      var rest := Split(s[1..], sep);
      if s[0] == sep then [[]] + rest
      else [[s[0]] + rest[0]] + rest[1..]
  }

  /** `sep.join(parts)` */
  function Join(parts: seq<string>, sep: char): string {
    if parts == [] then []
    else if |parts| == 1 then parts[0]
    else parts[0] + [sep] + Join(parts[1..], sep)
  }

  /** Joining the pieces of a split gives back the original string. */
  lemma {:induction false} JoinSplit(s: string, sep: char)
    ensures Join(Split(s, sep), sep) == s
  {
    if s != [] {
      var rest := Split(s[1..], sep);
      JoinSplit(s[1..], sep);
      assert s == [s[0]] + s[1..];
      if s[0] == sep {
        assert ([[]] + rest)[1..] == rest;
      } else if |rest| > 1 {
        assert ([[s[0]] + rest[0]] + rest[1..])[1..] == rest[1..];
      }
    }
  }

  /** A string splits into itself alone exactly when it holds no separator. */
  lemma {:induction false} SplitWhole(s: string, sep: char)
    ensures sep !in s <==> Split(s, sep) == [s]
  {
    if s != [] {
      SplitWhole(s[1..], sep);
      assert s == [s[0]] + s[1..];
      if s[0] != sep && sep in s {
        assert sep in s[1..];
        var rest := Split(s[1..], sep);
        if |rest| == 1 {
          JoinSplit(s[1..], sep);
        }
      }
    }
  }

  /** A leading segment free of separators becomes the first piece. */
  lemma {:induction false} SplitAfterSegment(a: string, t: string, sep: char)
    requires sep !in a
    ensures Split(a + [sep] + t, sep) == [a] + Split(t, sep)
  {
    var s := a + [sep] + t;
    if a == [] {
      assert s[1..] == t;
    } else {
      assert s[1..] == a[1..] + [sep] + t;
      SplitAfterSegment(a[1..], t, sep);
      assert [s[0]] + a[1..] == a;
    }
  }

  // ---------------------------------------------------------------------
  // Basenames: `filename.split('/')[-1]`
  // ---------------------------------------------------------------------

  function Basename(path: string): (b: string)
    ensures '/' !in b
  {
    var parts := Split(path, '/');
    parts[|parts| - 1]
  }

  /**
   * The independent reading of "the text after the last `/`": a suffix of the
   * path without `/` that is either the whole path or preceded by `/`.
   */
  predicate LastSegment(path: string, b: string) {
    && |b| <= |path|
    && path[|path| - |b|..] == b
    && '/' !in b
    && (|b| < |path| ==> path[|path| - |b| - 1] == '/')
  }

  lemma {:induction false} BasenameIsLastSegmentOf(path: string)
    ensures LastSegment(path, Basename(path))
  {
    if path != [] {
      var tail := path[1..];
      var rest := Split(tail, '/');
      assert [path[0]] + tail == path;
      BasenameIsLastSegmentOf(tail);
      if path[0] == '/' {
        assert Split(path, '/') == [[]] + rest;
        assert Basename(path) == Basename(tail);
        LastSegmentExtend(path[0], tail, Basename(tail));
      } else if |rest| == 1 {
        JoinSplit(tail, '/');
        assert Basename(path) == [path[0]] + tail;
      } else {
        assert Basename(path) == Basename(tail);
        if |Basename(tail)| == |tail| {
          SplitWhole(tail, '/');
          assert false;
        }
        LastSegmentExtend(path[0], tail, Basename(tail));
      }
    }
  }

  /** Putting a character in front keeps a last segment that is not the whole path, or that `/` now precedes. */
  lemma LastSegmentExtend(c: char, tail: string, b: string)
    requires LastSegment(tail, b)
    requires |b| < |tail| || c == '/'
    ensures LastSegment([c] + tail, b)
  {
    var path := [c] + tail;
    assert path[|path| - |b|..] == tail[|tail| - |b|..];
    if |b| < |tail| {
      assert path[|path| - |b| - 1] == tail[|tail| - |b| - 1];
    }
  }

  /** A path has only one last segment. */
  lemma LastSegmentUnique(path: string, b1: string, b2: string)
    requires LastSegment(path, b1) && LastSegment(path, b2)
    ensures b1 == b2
  {
  }

  /** The basename is exactly the text after the last `/` (the whole path if it has none). */
  lemma BasenameIsLastSegment(path: string, b: string)
    ensures Basename(path) == b <==> LastSegment(path, b)
  {
    BasenameIsLastSegmentOf(path);
    if LastSegment(path, b) {
      LastSegmentUnique(path, b, Basename(path));
    }
  }

  /** Whatever precedes the last `/` does not affect the basename. */
  lemma BasenameOfJoined(p: string, q: string)
    ensures Basename(p + ['/'] + q) == Basename(q)
  {
    var path := p + ['/'] + q;
    var b := Basename(q);
    BasenameIsLastSegmentOf(q);
    assert path[|path| - |q|..] == q;
    assert path[|path| - |b|..] == b;
    BasenameIsLastSegment(path, b);
  }

  lemma BasenameOfPlainName(name: string)
    requires '/' !in name
    ensures Basename(name) == name
  {
    SplitWhole(name, '/');
  }

  // ---------------------------------------------------------------------
  // Keys and URLs
  // ---------------------------------------------------------------------

  const AssetFolder: string := "assets"

  /** `"{}/{}".format(SHORT_PROJECT_NAME, basename)`: the project folder, then the file. */
  function OutputKey(filename: string): (key: string)
    ensures Split(key, '/') == [ShortProjectName, Basename(filename)]
  {
    var key := ShortProjectName + "/" + Basename(filename);
    assert '/' !in ShortProjectName;
    SplitAfterSegment(ShortProjectName, Basename(filename), '/');
    SplitWhole(Basename(filename), '/');
    key
  }

  /** `"{}/assets/{}".format(SHORT_PROJECT_NAME, basename)`: two folders, then the file. */
  function AssetKey(filename: string): (key: string)
    ensures Split(key, '/') == [ShortProjectName, AssetFolder, Basename(filename)]
  {
    var b := Basename(filename);
    var key := ShortProjectName + "/" + AssetFolder + "/" + b;
    assert '/' !in ShortProjectName && '/' !in AssetFolder;
    assert key == ShortProjectName + ['/'] + (AssetFolder + ['/'] + b);
    SplitAfterSegment(ShortProjectName, AssetFolder + ['/'] + b, '/');
    SplitAfterSegment(AssetFolder, b, '/');
    SplitWhole(b, '/');
    key
  }

  /** The key keeps the file's basename, so deriving a key from a key changes nothing. */
  lemma KeysKeepBasename(filename: string)
    ensures Basename(OutputKey(filename)) == Basename(filename)
    ensures Basename(AssetKey(filename)) == Basename(filename)
    ensures OutputKey(OutputKey(filename)) == OutputKey(filename)
    ensures AssetKey(AssetKey(filename)) == AssetKey(filename)
  {
  }

  /** Two files share a key exactly when they share a basename, whatever their folders. */
  lemma KeyDeterminedByBasename(f: string, g: string)
    ensures OutputKey(f) == OutputKey(g) <==> Basename(f) == Basename(g)
    ensures AssetKey(f) == AssetKey(g) <==> Basename(f) == Basename(g)
  {
    if OutputKey(f) == OutputKey(g) {
      assert Split(OutputKey(f), '/')[1] == Split(OutputKey(g), '/')[1];
    }
    if AssetKey(f) == AssetKey(g) {
      assert Split(AssetKey(f), '/')[2] == Split(AssetKey(g), '/')[2];
    }
  }

  /** An output artifact never lands on an asset's key. */
  lemma OutputAndAssetKeysDiffer(f: string, g: string)
    ensures OutputKey(f) != AssetKey(g)
  {
    assert |Split(OutputKey(f), '/')| != |Split(AssetKey(g), '/')|;
  }

  /** `'http://{}/{}'.format(S3_PUBLIC_URL, key)` */
  function PublicUrl(host: string, key: string): (url: string)
    ensures Basename(url) == Basename(key)
  {
    BasenameOfJoined("http://" + host, key);
    "http://" + host + "/" + key
  }

  /** For one host, the URL depends on the key alone and tells different keys apart. */
  lemma PublicUrlDeterminedByKey(host: string, k1: string, k2: string)
    ensures PublicUrl(host, k1) == PublicUrl(host, k2) <==> k1 == k2
  {
    var prefix := "http://" + host + "/";
    if PublicUrl(host, k1) == PublicUrl(host, k2) {
      assert PublicUrl(host, k1) == prefix + k1 && PublicUrl(host, k2) == prefix + k2;
      assert k1 == (prefix + k1)[|prefix|..];
      assert k2 == (prefix + k2)[|prefix|..];
    }
  }

  /** The public URL of an asset names the same asset: rewriting it again is a no-op. */
  lemma AssetKeyOfAssetUrl(host: string, filename: string)
    ensures AssetKey(PublicUrl(host, AssetKey(filename))) == AssetKey(filename)
  {
  }

  /** One call of the storage client: the local file and the key it is stored under. */
  datatype Upload = Upload(filename: string, key: string)
}
