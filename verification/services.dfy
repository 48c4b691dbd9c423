/** The web application's service helpers: output file names and the
    publication-date key. */
module Services {
  import opened Text
  import opened Wrappers
  import opened Paths
  import opened Dates
  import opened Feed

  /** `update_file_extension`: appends `"." + extension` unless the name
      already ends with `extension`. The test has no dot, so a name that
      merely ends in the extension's letters is kept as it is. */
  function UpdateFileExtension(extension: string, filename: string): (r: string)
    ensures EndsWith(r, extension)
    ensures StartsWith(r, filename)
    ensures r == filename || r == filename + "." + extension
    ensures r == filename <==> EndsWith(filename, extension)
  {
    EndsWithConcat(filename + ".", extension);
    assert (filename + "." + extension)[..|filename|] == filename;
    if !EndsWith(filename, extension) then filename + "." + extension else filename
  }

  /** Applying the extension rule twice is applying it once. */
  lemma UpdateFileExtensionIdempotent(extension: string, filename: string)
    ensures UpdateFileExtension(extension, UpdateFileExtension(extension, filename))
         == UpdateFileExtension(extension, filename)
  {
  }

  /** The missing dot in the test: "reportpdf" is taken to be a pdf name. */
  lemma UpdateFileExtensionNoDotQuirk()
    ensures UpdateFileExtension("pdf", "reportpdf") == "reportpdf"
  {
    assert EndsWith("reportpdf", "pdf");
  }

  /** `create_target_path`: the folder joined with the file name after the
      same extension rule. */
  function CreateTargetPath(folder: string, filename: string, extension: string): (r: string)
    ensures EndsWith(r, UpdateFileExtension(extension, filename))
    ensures EndsWith(r, extension)
    ensures (filename == [] || filename[0] != SEP) ==> StartsWith(r, folder)
  {
    var name := UpdateFileExtension(extension, filename);
    EndsWithTransitive(Join(folder, name), name, extension);
    Join(folder, name)
  }

  /** `format_pubdate`: the sentinel stays the sentinel; any other string is
      parsed by the date oracle and rendered as YYYYMMDD. A parser exception
      propagates. */
  function FormatPubdate(raw: string, parse: DateParser): (r: Result<string, DateError>)
    ensures r.Failure? <==> raw != EMPTY && parse(raw).Unparsable?
    ensures r.Failure? ==> r.error == parse(raw).error
    ensures r.Success? ==> (r.value == EMPTY <==> raw == EMPTY)
    ensures r.Success? && raw != EMPTY ==>
              |r.value| == 8 && AllDigits(r.value) && ParseYmd(r.value) == Some(parse(raw).date)
  {
    if raw != EMPTY then
      match parse(raw)
      case Parsed(d) =>
        FormatYmdRoundTrip(d);
        assert !IsDigit(EMPTY[0]);
        Success(FormatYmd(d))
      case Unparsable(e) => Failure(e)
    else Success(EMPTY)
  }
}
