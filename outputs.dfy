/**
 * The output tasks: `epub` and `pdf` produce one combined file from every
 * chapter and upload it when storage is enabled; `clean` deletes whichever of
 * the two generated files exists. The working directory is modelled as the set
 * of file names in it.
 */
module Outputs {
  import opened Wrappers
  import opened Configuration
  import opened Storage

  const EpubName: string := FullProjectName + ".epub"
  const PdfName: string := FullProjectName + ".pdf"

  /** `possible_outputs`, in the order `clean` visits them. */
  const PossibleOutputs: seq<string> := [EpubName, PdfName]

  datatype Format = Epub | Pdf

  function OutputName(format: Format): (name: string)
    ensures name in PossibleOutputs
  {
    match format
    case Epub => EpubName
    case Pdf => PdfName
  }

  /** The working directory after a build, the uploads made, and the printed URL. */
  datatype BuildResult = BuildResult(files: set<string>, uploads: seq<Upload>, url: Option<string>)

  /**
   * The `epub` and `pdf` tasks. The converter run that writes the file is not
   * modelled beyond its effect: the output file exists afterwards.
   */
  function BuildOutput(s: Settings, format: Format, files: set<string>): (r: BuildResult)
    requires s.Loaded()
    ensures r.files == files + {OutputName(format)}
    ensures |r.uploads| == (if s.awsEnabled then 1 else 0)
    ensures r.url.Some? <==> s.awsEnabled
  {
    var name := OutputName(format);
    if s.awsEnabled then
      BuildResult(files + {name}, [Upload(name, OutputKey(name))],
                  Some(PublicUrl(s.s3PublicUrl, OutputKey(name))))
    else
      BuildResult(files + {name}, [], None)
  }

  lemma OutputNamesArePlain(format: Format)
    ensures '/' !in OutputName(format)
    ensures OutputKey(OutputName(format)) == ShortProjectName + "/" + OutputName(format)
  {
    assert '/' !in EpubName && '/' !in PdfName;
    BasenameOfPlainName(OutputName(format));
  }

  /**
   * A build always leaves its output file in the working directory and touches
   * no other file. It uploads that one file, under `python/<name>`, exactly
   * when storage is enabled, and then prints its public URL.
   */
  lemma BuildUploadsOnlyWithStorage(s: Settings, format: Format, files: set<string>)
    requires s.Loaded()
    ensures var r := BuildOutput(s, format, files);
            && OutputName(format) in r.files
            && r.files - {OutputName(format)} == files - {OutputName(format)}
            && (r.uploads != [] <==> s.awsEnabled)
            && (s.awsEnabled ==>
                  var key := ShortProjectName + "/" + OutputName(format);
                  r.uploads == [Upload(OutputName(format), key)]
                  && r.url == Some("http://" + s.s3PublicUrl + "/" + key))
            && (!s.awsEnabled ==> r.url == None)
  {
    OutputNamesArePlain(format);
  }

  // ---------------------------------------------------------------------
  // clean
  // ---------------------------------------------------------------------

  /** The names in `names` that exist in `files`, in the order of `names`. */
  function Existing(files: set<string>, names: seq<string>): (r: seq<string>)
    ensures forall f :: f in r <==> f in files && f in names
    decreases |names|
  {
    if names == [] then []
    else
      var last := names[|names| - 1];
      Existing(files, names[..|names| - 1]) + (if last in files then [last] else [])
  }

  /** The working directory once the generated outputs are gone. */
  function Cleaned(files: set<string>): (r: set<string>)
    ensures forall f :: f in r <==> f in files && f !in PossibleOutputs
  {
    files - {EpubName, PdfName}
  }

  /**
   * `clean`: visit each possible output in turn and delete it if it exists,
   * printing its name. A missing file is skipped, not an error.
   */
  method Clean(files: set<string>) returns (remaining: set<string>, removed: seq<string>)
    ensures remaining == Cleaned(files)
    ensures removed == Existing(files, PossibleOutputs)
  {
    remaining, removed := files, [];
    for i := 0 to |PossibleOutputs|
      invariant remaining == files - set k | 0 <= k < i :: PossibleOutputs[k]
      invariant removed == Existing(files, PossibleOutputs[..i])
    {
      var filename := PossibleOutputs[i];
      if filename in remaining {
        remaining := remaining - {filename};
        removed := removed + [filename];
      }
      assert PossibleOutputs[..i + 1][..i] == PossibleOutputs[..i];
    }
    assert PossibleOutputs[..|PossibleOutputs|] == PossibleOutputs;
  }

  /** After `clean` no output is left, so a second `clean` removes nothing and changes nothing. */
  lemma CleanIsIdempotent(files: set<string>)
    ensures Existing(Cleaned(files), PossibleOutputs) == []
    ensures Cleaned(Cleaned(files)) == Cleaned(files)
  {
    CleanWithNoOutputs(Cleaned(files));
  }

  /** With no output present, `clean` deletes nothing and reports nothing. */
  lemma CleanWithNoOutputs(files: set<string>)
    requires EpubName !in files && PdfName !in files
    ensures Existing(files, PossibleOutputs) == [] && Cleaned(files) == files
  {
    assert PossibleOutputs[..1] == [EpubName];
    assert [EpubName][..0] == [];
    assert Existing(files, [EpubName]) == [];
    assert Existing(files, PossibleOutputs) == Existing(files, [EpubName]) + [];
  }

  /** With only the EPUB present, `clean` removes exactly that file and reports it. */
  lemma CleanRemovesOnlyTheEpub(files: set<string>)
    requires EpubName in files && PdfName !in files
    ensures Existing(files, PossibleOutputs) == [EpubName]
    ensures Cleaned(files) == files - {EpubName}
  {
    assert PossibleOutputs[..1] == [EpubName];
    assert [EpubName][..0] == [];
    assert Existing(files, [EpubName]) == [EpubName];
  }

  /** Building an output and then cleaning gives the same directory as cleaning alone. */
  lemma CleanUndoesBuild(s: Settings, format: Format, files: set<string>)
    requires s.Loaded()
    ensures Cleaned(BuildOutput(s, format, files).files) == Cleaned(files)
    ensures OutputName(format) in Existing(BuildOutput(s, format, files).files, PossibleOutputs)
  {
  }
}
