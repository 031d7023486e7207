/** The files of the upload component: which files the drop zone and the
    file input accept, how a browser file becomes an uploaded file, how a
    file is classified as CSV, and how a file is removed from the list. */
module Uploads {
  import opened Wrappers
  import opened Text

  /** A file as the browser hands it over: its name, its MIME type (empty
      when the browser does not know it) and the text `FileReader` reads
      from it. */
  datatype BrowserFile = BrowserFile(name: string, mimeType: string, text: string)

  /** An uploaded file: name, content and type. */
  datatype UploadedFile = UploadedFile(name: string, content: string, fileType: string)

  /** The filter of both the drop handler and the file input: a plain-text
      or CSV type, or a `.txt` or `.csv` name. */
  predicate Accepts(f: BrowserFile) {
    || f.mimeType == "text/plain"
    || f.mimeType == "text/csv"
    || EndsWith(f.name, ".txt")
    || EndsWith(f.name, ".csv")
  }

  /** The accepted files, in the order they were selected. */
  function AcceptedFiles(fs: seq<BrowserFile>): (r: seq<BrowserFile>)
    ensures |r| <= |fs|
    ensures forall f :: f in r <==> f in fs && Accepts(f)
  {
    if fs == [] then []
    else
      assert fs == [fs[0]] + fs[1..];
      (if Accepts(fs[0]) then [fs[0]] else []) + AcceptedFiles(fs[1..])
  }

  /** One more selected file is kept at the end when it is acceptable and
      dropped otherwise: with `AcceptedFiles([]) == []` this determines the
      filter completely, order included. */
  lemma {:induction false} AcceptedFilesSnoc(fs: seq<BrowserFile>, f: BrowserFile)
    ensures AcceptedFiles(fs + [f]) == AcceptedFiles(fs) + (if Accepts(f) then [f] else [])
  {
    if fs != [] {
      assert (fs + [f])[0] == fs[0] && (fs + [f])[1..] == fs[1..] + [f];
      AcceptedFilesSnoc(fs[1..], f);
    }
  }

  /** When every file is acceptable, all of them are kept, in order. */
  lemma {:induction false} AllAccepted(fs: seq<BrowserFile>)
    requires forall f :: f in fs ==> Accepts(f)
    ensures AcceptedFiles(fs) == fs
  {
    if fs != [] {
      assert fs[0] in fs;
      assert forall f :: f in fs[1..] ==> f in fs;
      AllAccepted(fs[1..]);
      assert [fs[0]] + fs[1..] == fs;
    }
  }

  /** Filtering twice keeps what filtering once kept. */
  lemma AcceptedFilesIdempotent(fs: seq<BrowserFile>)
    ensures AcceptedFiles(AcceptedFiles(fs)) == AcceptedFiles(fs)
  {
    AllAccepted(AcceptedFiles(fs));
  }

  /** `processFile`: the browser's type, or when it is empty `text/csv` for
      a `.csv` name and `text/plain` otherwise. */
  function ProcessFile(f: BrowserFile): (u: UploadedFile)
    ensures u.name == f.name && u.content == f.text
    ensures u.fileType != []
    ensures f.mimeType != [] ==> u.fileType == f.mimeType
    ensures f.mimeType == [] ==> u.fileType == (if EndsWith(f.name, ".csv") then "text/csv" else "text/plain")
  {
    UploadedFile(
      f.name, f.text,
      if f.mimeType != [] then f.mimeType
      else if EndsWith(f.name, ".csv") then "text/csv" else "text/plain")
  }

  /** `Promise.all(files.map(processFile))`. */
  function ProcessAll(fs: seq<BrowserFile>): (us: seq<UploadedFile>)
    ensures |us| == |fs|
    ensures forall i :: 0 <= i < |fs| ==> us[i] == ProcessFile(fs[i])
    ensures forall i :: 0 <= i < |fs| ==> us[i].name == fs[i].name && us[i].content == fs[i].text
  {
    seq(|fs|, i requires 0 <= i < |fs| => ProcessFile(fs[i]))
  }

  /** The test the chart data and the report use to treat a file as CSV. */
  predicate IsCsv(u: UploadedFile) {
    u.fileType == "text/csv" || EndsWith(u.name, ".csv")
  }

  /** Filling in a missing type never changes how a file is classified: a
      processed file is CSV exactly when the browser said so or its name
      ends in `.csv`. */
  lemma ProcessedIsCsv(f: BrowserFile)
    ensures IsCsv(ProcessFile(f)) <==> f.mimeType == "text/csv" || EndsWith(f.name, ".csv")
  {
  }

  /** `files.find(isCsv)`: the first CSV file. */
  function FirstCsv(files: seq<UploadedFile>): Option<UploadedFile>
  {
    if files == [] then None
    else if IsCsv(files[0]) then Some(files[0])
    else FirstCsv(files[1..])
  }

  /** There is no result exactly when no file is CSV; otherwise the result
      is a CSV file that no CSV file precedes. */
  lemma {:induction false} FirstCsvIsFirst(files: seq<UploadedFile>)
    ensures FirstCsv(files).None? <==> forall f :: f in files ==> !IsCsv(f)
    ensures FirstCsv(files).Some? ==>
              IsCsv(FirstCsv(files).value) &&
              exists i :: 0 <= i < |files| && files[i] == FirstCsv(files).value &&
                          forall j :: 0 <= j < i ==> !IsCsv(files[j])
  {
    if files != [] && !IsCsv(files[0]) {
      var rest := files[1..];
      FirstCsvIsFirst(rest);
      assert files == [files[0]] + rest;
      if FirstCsv(rest).Some? {
        var i :| 0 <= i < |rest| && rest[i] == FirstCsv(rest).value &&
                 forall j :: 0 <= j < i ==> !IsCsv(rest[j]);
        assert files[i + 1] == FirstCsv(files).value;
        forall j | 0 <= j < i + 1
          ensures !IsCsv(files[j])
        {
          if j > 0 {
            assert files[j] == rest[j - 1];
          }
        }
      }
    } else if files != [] {
      assert files[0] in files;
    }
  }

  /** `prev.filter((_, i) => i !== index)`. */
  function Removed(files: seq<UploadedFile>, index: int): (r: seq<UploadedFile>)
    ensures |r| <= |files|
  {
    if files == [] then []
    else (if index == 0 then [] else [files[0]]) + Removed(files[1..], index - 1)
  }

  /** Removing the file at a position in range deletes exactly that entry;
      any other index leaves the list as it was. */
  lemma {:induction false} RemovedIsSplice(files: seq<UploadedFile>, index: int)
    ensures 0 <= index < |files| ==> Removed(files, index) == files[..index] + files[index + 1..]
    ensures !(0 <= index < |files|) ==> Removed(files, index) == files
  {
    if files != [] {
      RemovedIsSplice(files[1..], index - 1);
      if index == 0 {
        assert files[1..] == files[..0] + files[1..];
      } else if 0 < index < |files| {
        assert files[1..][..index - 1] == files[1..index];
        assert files[1..][index..] == files[index + 1..];
        assert [files[0]] + files[1..index] == files[..index];
      } else {
        assert [files[0]] + files[1..] == files;
      }
    }
  }
}
