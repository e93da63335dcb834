/** `download_file`: the endpoint that serves an exported file by name. The
    filesystem is the set of paths that exist. */
module Download {
  import opened Results
  import opened Strings
  import opened FileService

  datatype FileResponse = FileResponse(path: string, filename: string, mediaType: string)

  /** The traversal guard: `..`, `/` or `\` anywhere in the name. */
  predicate Traversal(filename: string) {
    Contains(filename, "..") || '/' in filename || '\\' in filename
  }

  /** The endpoint: the guard first, then the existence check, then the file
      under its own name as a binary download. */
  function DownloadFile(filename: string, cwd: string, existing: set<string>): (r: Result<FileResponse, HttpError>)
    ensures Traversal(filename) ==> r == Failure(HttpError(400, "Invalid filename"))
    ensures !Traversal(filename) && OutputPath(cwd, filename) !in existing ==> r == Failure(HttpError(404, "File not found"))
    ensures r.Success? <==> !Traversal(filename) && OutputPath(cwd, filename) in existing
    ensures r.Success? ==> r.value.filename == filename && r.value.mediaType == "application/octet-stream"
    ensures r.Success? ==> r.value.path in existing
  {
    if Traversal(filename) then Failure(HttpError(400, "Invalid filename"))
    else
      var path := OutputPath(cwd, filename);
      if path !in existing then Failure(HttpError(404, "File not found"))
      else Success(FileResponse(path, filename, "application/octet-stream"))
  }

  /** The guard is decided before any lookup: a rejected name gets the same
      answer whatever files exist. */
  lemma TraversalBeforeLookup(filename: string, cwd: string, existing1: set<string>, existing2: set<string>)
    requires Traversal(filename)
    ensures DownloadFile(filename, cwd, existing1) == DownloadFile(filename, cwd, existing2)
    ensures DownloadFile(filename, cwd, existing1).Failure?
  {
  }

  /** An accepted name resolves to `outputs/<filename>` right under the
      output directory: nothing after the directory's separator can climb out
      or descend further. */
  lemma AcceptedStaysInOutputs(filename: string, cwd: string, existing: set<string>)
    requires DownloadFile(filename, cwd, existing).Success?
    ensures DownloadFile(filename, cwd, existing).value.path == OutputDir(cwd) + "/" + filename
    ensures EndsWith(DownloadFile(filename, cwd, existing).value.path, "outputs/" + filename)
    ensures '/' !in filename && !Contains(filename, "..")
  {
    assert !StartsWith(filename, "/") by {
      if |filename| >= 1 { assert filename[0] in filename; }
    }
    OutputPathShape(cwd, filename);
  }
}
