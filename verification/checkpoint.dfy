/**
 `PyPiScrapper.load_progress` and `PyPiScrapper.save_progress`. The file
 system is a map from path to content; JSON is abstracted to the two keys
 the progress file holds, each of which may be missing, or to content that
 does not decode. The visited list is held as the set of its elements, since
 loading only ever turns it back into a set.
 */
module Checkpoint {
  import opened Optional

  /** The scraper's resumable state: the links scraped so far and the last listing page finished. */
  datatype Progress = Progress(visited: set<string>, lastPage: int)

  /** What a file holds: a JSON object with (maybe) the two keys, or text that is not valid JSON. */
  datatype FileContent =
    | ProgressDoc(visited: Option<set<string>>, lastPage: Option<int>)
    | Undecodable

  type FileSystem = map<string, FileContent>

  /** The state of a scraper that has saved nothing yet. */
  const Fresh := Progress({}, 1)

  /**
   load_progress: a missing file, or one that is not valid JSON, gives the
   fresh state; otherwise each key is read, with `[]` and `1` for a missing
   visited list or page.
   */
  function LoadProgress(fs: FileSystem, path: string): (p: Progress)
    ensures path !in fs || fs[path].Undecodable? ==> p == Fresh
    ensures path in fs && fs[path].ProgressDoc? ==>
      (fs[path].visited.Some? ==> p.visited == fs[path].visited.value) &&
      (fs[path].visited.None? ==> p.visited == {}) &&
      (fs[path].lastPage.Some? ==> p.lastPage == fs[path].lastPage.value) &&
      (fs[path].lastPage.None? ==> p.lastPage == 1)
  {
    if path !in fs then Fresh
    else match fs[path]
      case Undecodable => Fresh
      case ProgressDoc(visited, lastPage) => Progress(visited.GetOr({}), lastPage.GetOr(1))
  }

  /** The JSON document save_progress writes for `p`. */
  function Encode(p: Progress): FileContent {
    ProgressDoc(Some(p.visited), Some(p.lastPage))
  }

  /** The file written first and then moved over the progress file. */
  function TempPath(path: string): (t: string)
    ensures t != path && path <= t
  {
    path + ".tmp"
  }

  /**
   How the save went: all steps succeeded, opening the temporary file
   failed, writing the JSON into it failed part-way, or the final replace
   failed.
   */
  datatype WriteOutcome = Written | OpenFailed | DumpFailed | ReplaceFailed

  /**
   save_progress: the state is written to the temporary file, which is then
   moved over the progress file. On any failure the temporary file is removed
   if it exists, and the progress file keeps what it held. No other path is
   touched.
   */
  function SaveProgress(fs: FileSystem, path: string, p: Progress, outcome: WriteOutcome): (r: FileSystem)
    ensures outcome.Written? ==> path in r && r[path] == Encode(p)
    ensures !outcome.Written? ==> (path in r <==> path in fs) && (path in fs ==> r[path] == fs[path])
    ensures TempPath(path) !in r
    ensures forall q :: q != path && q != TempPath(path) ==> (q in r <==> q in fs) && (q in fs ==> r[q] == fs[q])
  {
    var tmp := TempPath(path);
    // `open(temp_file, "w")` creates or truncates the temporary file
    var created := if outcome.OpenFailed? then fs else fs[tmp := Undecodable];
    // `json.dump` fills it, or stops part-way
    var dumped := if outcome.Written? || outcome.ReplaceFailed? then created[tmp := Encode(p)] else created;
    if outcome.Written? then
      // `os.replace` moves the temporary file over the progress file
      (dumped - {tmp})[path := dumped[tmp]]
    else
      // the handler removes the temporary file if it exists
      dumped - {tmp}
  }

  /** Saving and then loading gives back the saved state. */
  lemma SaveLoadRoundTrip(fs: FileSystem, path: string, p: Progress)
    ensures LoadProgress(SaveProgress(fs, path, p, Written), path) == p
  {
  }

  /** A failed save leaves what a later load sees unchanged. */
  lemma FailedSaveKeepsCheckpoint(fs: FileSystem, path: string, p: Progress, outcome: WriteOutcome)
    requires !outcome.Written?
    ensures LoadProgress(SaveProgress(fs, path, p, outcome), path) == LoadProgress(fs, path)
  {
  }

  /** A save never changes what loading another progress file gives, except that file's own temporary file. */
  lemma SaveIsLocal(fs: FileSystem, path: string, other: string, p: Progress, outcome: WriteOutcome)
    requires other != path && other != TempPath(path)
    ensures LoadProgress(SaveProgress(fs, path, p, outcome), other) == LoadProgress(fs, other)
  {
  }
}
