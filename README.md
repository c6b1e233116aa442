# Berean sermon search engine: fetch and merge stages

This project models the two pieces of sequential decision logic in the data
pipeline of the Berean sermon search engine, and proves properties of them:

- **The fetch stage** (`get_data.py`), module `GetData`. It downloads the
  video-details document once the file metadata has been checked for a
  `download_url`. It then reconciles the remote transcript folder with the local
  one:
  - it lists the remote repository tree;
  - it keeps the `blob` entries under `data/transcripts/`;
  - it derives each local file name as the last `/` segment of the path;
  - it skips names already present locally;
  - it fetches and writes the others, remembering each name it writes;
  - the first failed request stops the stage.
- **The merge stage** (`transcript_formatter.py`), module `TranscriptFormatter`.
  It walks the transcript text files and attaches each file's stripped text to
  the video record whose id is the file's stem. It skips ids with no record
  and records that already hold a transcript, and counts the files that
  matched a record.
- **The Python string operations** the two stages rely on, module `PyStr`:
  `str.strip()`, `str.split(sep)` and `str.startswith`.

How the model represents the system:

- Remote requests are an oracle `fetch` from URL to response. The two JSON
  API responses are inputs, given already parsed.
- A run of the fetch stage is observed through four things: the URLs it
  requested in order, the files it wrote in order, its final set of known
  local names, and the error it raised, if any.
- The merge works on the class `VideoDetails`, whose `records` map (video id
  to record) is updated in place by the loop.
- Both loops are methods, proved equal to left-fold specification functions
  (`Merge`/`MatchCount`, and `Reconcile`). The properties the code promises
  are proved about those functions.
- The fetch loop is also compared with a reference plan, `Pending`. The plan
  is characterised by position, independently of the loop: it is the
  subsequence of the filtered listing made of the first entry of each name
  that is not local, in listing order (`PendingSelectsFirstNew`).

The merge counter counts every file whose stem is a video id, including
records that already held a transcript (`transcript_formatter.py:54-60`). So
it is not the number of transcripts added (`MatchCount`,
`MatchCountIsMatchedIds`).

## Model

| member | source | states |
|---|---|---|
| PyStr.IsWhitespace | src/berean_sermon_search_engine/transcript_formatter.py:53 | the characters `str.strip()` removes, which are those of Python's `str.isspace` |
| PyStr.LStrip | src/berean_sermon_search_engine/transcript_formatter.py:53 | `lstrip()`: the result is a suffix of the input; everything removed is whitespace; the result is empty or does not start with whitespace |
| PyStr.RStrip | src/berean_sermon_search_engine/transcript_formatter.py:53 | `rstrip()`: the result is a prefix of the input; everything removed is whitespace; the result is empty or does not end with whitespace |
| PyStr.Strip | src/berean_sermon_search_engine/transcript_formatter.py:53 | `strip()` with no argument: `rstrip()` of `lstrip()`; what it returns is stated by `StripIsWindow` and `StripWindowUnique` |
| PyStr.WindowOfStrips | src/berean_sermon_search_engine/transcript_formatter.py:53 | the part `lstrip` keeps, cut down by `rstrip`, is a window of the text with only whitespace outside it and no whitespace at its ends |
| PyStr.StripIsWindow | src/berean_sermon_search_engine/transcript_formatter.py:53 | `strip()` returns the part of the text between leading and trailing whitespace. Only whitespace lies outside it, and the part neither starts nor ends with whitespace |
| PyStr.StripWindowUnique | src/berean_sermon_search_engine/transcript_formatter.py:53 | such a part is unique, so the description above determines `strip()` completely |
| PyStr.Split | src/berean_sermon_search_engine/get_data.py:91 | `split(sep)` returns at least one piece; joining the pieces with the separator gives back the input; no piece contains the separator |
| PyStr.StartsWith | src/berean_sermon_search_engine/get_data.py:80 | `startswith(prefix)`: the prefix is no longer than the text and equals its beginning |
| PyStr.LastPiece | src/berean_sermon_search_engine/get_data.py:91 | `split(sep)[-1]` is the suffix after the last separator and contains none. With no separator it is the whole input; otherwise it is strictly shorter than the input |
| PyStr.LastPieceAfterSep | src/berean_sermon_search_engine/get_data.py:91 | a text that starts with the separator has the same last piece as the rest of the text |
| PyStr.LastPieceAfterChar | src/berean_sermon_search_engine/get_data.py:91 | a text that starts with another character has the same last piece as the rest, or the whole text when the rest has no separator |
| TranscriptFormatter.MergeFile | src/berean_sermon_search_engine/transcript_formatter.py:52-62 | one loop iteration: the ids are unchanged, every other record is unchanged, and the file's record, if there is one, holds a transcript afterwards |
| TranscriptFormatter.Merge | src/berean_sermon_search_engine/transcript_formatter.py:51-62 | the files merged in folder order. The merged dictionary has exactly the keys of the input: unmatched stems add none and no record is dropped |
| TranscriptFormatter.MatchCount | src/berean_sermon_search_engine/transcript_formatter.py:50-60 | the loop counter: it counts each file whose stem is a video id, so it never exceeds the number of files |
| TranscriptFormatter.VideoDetails.Load | src/berean_sermon_search_engine/transcript_formatter.py:5-17 | the loaded dictionary holds the document's records |
| TranscriptFormatter.VideoDetails.AddTranscriptsToDetails | src/berean_sermon_search_engine/transcript_formatter.py:31-64 | mutates and returns the same dictionary. The new records are the ordered merge of the files into the old ones; the counter is the number of files whose stem was a video id |
| TranscriptFormatter.MergeKeepsFields | src/berean_sermon_search_engine/transcript_formatter.py:55-58 | every field of every record other than `transcript` is unchanged. A record that already had a transcript is unchanged, whatever the files say |
| TranscriptFormatter.MergeUnmatched | src/berean_sermon_search_engine/transcript_formatter.py:54-62 | a record no file names is returned unchanged |
| TranscriptFormatter.MergeAddsStripped | src/berean_sermon_search_engine/transcript_formatter.py:53-58 | a record without a transcript ends with `transcript` equal to the stripped text of the first file with its stem, and nothing else in it changes. Later files with the same stem are skipped |
| TranscriptFormatter.MergeFillsMatched | src/berean_sermon_search_engine/transcript_formatter.py:54-58 | after the merge every record named by some file holds a transcript |
| TranscriptFormatter.MergeNoop | src/berean_sermon_search_engine/transcript_formatter.py:54-62 | files that only name records already holding a transcript, or no record, leave the dictionary unchanged |
| TranscriptFormatter.MergeIdempotent | src/berean_sermon_search_engine/transcript_formatter.py:55-56 | merging again into the merge's own output changes nothing. This holds for the same files or any subset of their stems, even with different file contents |
| TranscriptFormatter.MatchCountIsMatchedIds | src/berean_sermon_search_engine/transcript_formatter.py:54-60 | with distinct stems, the counter equals the number of video ids that have a transcript file, whether newly merged or not |
| TranscriptFormatter.SplitLastFile | src/berean_sermon_search_engine/transcript_formatter.py:51 | taking the last file off the listing: the stems split accordingly, and distinct stems stay distinct |
| TranscriptFormatter.UnmatchedExample | src/berean_sermon_search_engine/transcript_formatter.py:61-62 | a file for an unknown id adds nothing and counts nothing |
| TranscriptFormatter.MatchExample | src/berean_sermon_search_engine/transcript_formatter.py:53-60 | a file for record `v1` with title `A` and no transcript yields title `A` and the stripped text as transcript, whatever the text, and a count of 1 |
| GetData.HasDownloadUrl | src/berean_sermon_search_engine/get_data.py:36-37 | `file_metadata.get("download_url")` is truthy: the field is present and not empty |
| GetData.DownloadVideoDetails | src/berean_sermon_search_engine/get_data.py:15-51 | the first request is the contents API URL, and a file is written exactly when nothing failed. A failed metadata request raises on that URL. A missing or empty `download_url` fails with only that one request and writes nothing. Otherwise the second request is the download URL. If it succeeds, the file written is `video_details_cache.json` with the fetched text; if it fails, the stage raises on that URL |
| GetData.TreeOf | src/berean_sermon_search_engine/get_data.py:79 | `tree_data.get("tree", [])`: the listing's items, or none when the field is absent |
| GetData.IsTranscriptBlob | src/berean_sermon_search_engine/get_data.py:80 | the entry has type `blob` and a path that starts with `data/transcripts/` |
| GetData.TranscriptEntries | src/berean_sermon_search_engine/get_data.py:78-81 | an entry is kept exactly when it is in the listing and is a transcript blob |
| GetData.TranscriptEntriesAppend | src/berean_sermon_search_engine/get_data.py:78-81 | filtering a concatenation concatenates the filtered parts, so the filter keeps listing order and repeated entries |
| GetData.TranscriptEntriesSingle | src/berean_sermon_search_engine/get_data.py:78-81 | a single entry is kept exactly when it is a transcript blob |
| GetData.FileName | src/berean_sermon_search_engine/get_data.py:91 | `path.split("/")[-1]`; a path without `/` is its own name |
| GetData.FileNameIsLastSegment | src/berean_sermon_search_engine/get_data.py:91 | the local name holds no `/`, ends the path, and is preceded by a `/` or by nothing |
| GetData.RawUrl | src/berean_sermon_search_engine/get_data.py:96 | the raw URL is the fixed owner/repo/branch prefix followed by the entry's full path |
| GetData.Step | src/berean_sermon_search_engine/get_data.py:91-104 | one loop iteration: a known name changes nothing. Otherwise the raw URL is requested; a failure is recorded on that URL, and a success leaves the name known. The known names only grow |
| GetData.Reconcile | src/berean_sermon_search_engine/get_data.py:90-104 | the loop over the filtered entries, stopping at the first failure: at most one request per entry and at most one write per request |
| GetData.Pending | src/berean_sermon_search_engine/get_data.py:90-104 | the reference plan: no longer than the listing; what it holds is stated by `PendingSelectsFirstNew` |
| GetData.TranscriptDownload | src/berean_sermon_search_engine/get_data.py:53-104 | the first request is the tree API URL. A failed listing writes nothing and raises on that URL. The known names always include the local ones |
| GetData.DownloadTranscripts | src/berean_sermon_search_engine/get_data.py:70-104 | the loop's requests, writes, known names and failure are exactly those of the specification `TranscriptDownload` |
| GetData.ReconcileKnownGrows | src/berean_sermon_search_engine/get_data.py:88-104 | the set of known names only grows |
| GetData.ReconcileStopsAtFailure | src/berean_sermon_search_engine/get_data.py:97-98 | once a fetch has failed, later entries change nothing |
| GetData.PendingSelectsFirstNew | src/berean_sermon_search_engine/get_data.py:90-104 | the plan picks entries of the listing at strictly increasing positions. A position is picked exactly when its name is not local and no earlier entry has that name |
| GetData.SelectsFirstNewExtend | src/berean_sermon_search_engine/get_data.py:90-104 | the selection of a listing extends to the listing with one more entry |
| GetData.SelectsAppendNew | src/berean_sermon_search_engine/get_data.py:94-104 | a new last name is appended to the plan at the last position |
| GetData.SelectsAppendOld | src/berean_sermon_search_engine/get_data.py:92-93 | a last entry whose name is local or earlier leaves the plan as it is |
| GetData.FirstNewLast | src/berean_sermon_search_engine/get_data.py:92 | the last entry is the first new one of its name exactly when its name is neither local nor planned earlier |
| GetData.PendingFromEntries | src/berean_sermon_search_engine/get_data.py:90 | every planned entry is an entry of the filtered listing |
| GetData.PendingNamesFresh | src/berean_sermon_search_engine/get_data.py:92-104 | no planned name is local, and no two planned entries share a name |
| GetData.PendingCovers | src/berean_sermon_search_engine/get_data.py:90-104 | every listed name is either local or planned |
| GetData.OnPlanStopped | src/berean_sermon_search_engine/get_data.py:97-98 | a run that has failed stays on the plan when the plan grows |
| GetData.OnPlanFetch | src/berean_sermon_search_engine/get_data.py:94-104 | fetching a new name after the plan so far keeps the run on the plan extended by that entry |
| GetData.UrlsAppend | src/berean_sermon_search_engine/get_data.py:96 | the URLs of an extended plan are the old URLs plus the new entry's raw URL |
| GetData.NamesAppend | src/berean_sermon_search_engine/get_data.py:91 | the names of an extended plan are the old names plus the new entry's name |
| GetData.WrittenNamesAppend | src/berean_sermon_search_engine/get_data.py:100-104 | writing a file appends its name to the written names and adds it to their set |
| GetData.OnPlanFail | src/berean_sermon_search_engine/get_data.py:97-98 | a failed fetch of the next planned URL records that request and that failure, and writes nothing |
| GetData.OnPlanWrite | src/berean_sermon_search_engine/get_data.py:97-104 | a successful fetch of the next planned URL writes its text under the planned name and adds the name to the known set |
| GetData.LogOnPlanWrite | src/berean_sermon_search_engine/get_data.py:96-102 | the request log and the write log stay aligned with the plan after a successful fetch |
| GetData.ReconcileFollowsPending | src/berean_sermon_search_engine/get_data.py:90-104 | the loop follows the reference plan (the first entry of each new name, in listing order). It requests a prefix of the planned URLs and writes the planned names in order, each with the text fetched for it. The known names are the local names plus the written ones. A failure happens only at a failed fetch of the next planned URL, and a complete run requests every planned URL |
| GetData.ReconcileWritesNewNamesOnce | src/berean_sermon_search_engine/get_data.py:90-104 | every written name is new to the local folder, and no name is written twice, even when the listing repeats a name |
| GetData.ReconcileSkipsLocalNames | src/berean_sermon_search_engine/get_data.py:92-93 | no URL is requested for an entry whose name is already local |
| GetData.ReconcileKnownAfterSuccess | src/berean_sermon_search_engine/get_data.py:88-104 | after a complete run, the known names are the local names plus the names of all filtered entries |
| GetData.PendingEmpty | src/berean_sermon_search_engine/get_data.py:92-93 | when every listed name is already local, nothing is planned |
| GetData.DownloadIdempotent | src/berean_sermon_search_engine/get_data.py:53-104 | a second run after a complete one, against the same listing, requests only the listing and writes nothing, whatever the second fetch returns |
| GetData.ReconcileFetchesOnlyNew | src/berean_sermon_search_engine/get_data.py:92-97 | every URL the loop requests is the raw URL of a listed entry whose name is not local |
| GetData.DownloadFetchesOnlyNewTranscripts | src/berean_sermon_search_engine/get_data.py:78-97 | every file request is the raw URL of a transcript blob of the listing whose name is not local |
| GetData.DownloadWritesFetchedTranscripts | src/berean_sermon_search_engine/get_data.py:78-102 | every written file carries the name of a transcript blob of the listing, and the text fetched from that blob's raw URL |

## Left out

- HTTP requests, basic-auth credentials and `.env` loading (`get_data.py:10,30-31,41,72-73,97`). Every request is the oracle `fetch`, and `raise_for_status` is an error response.
- JSON decoding of the two API responses (`get_data.py:35,75`) and of the video-details document (`transcript_formatter.py:16`). These responses are given already parsed. Metadata values are strings, so a `null` or non-string `download_url` is not modelled.
- `json.dump(..., indent=2)` formatting and the save path (`transcript_formatter.py:19-29`): saving is reading the `records` field.
- Filesystem effects: `mkdir`, `iterdir`, `glob` and its order, `read_text`, `open`/`write`. The local folder is a set of names, the transcript folder is a sequence of (stem, decoded text) pairs in any order, and written files are an output log. Text decoding and newline translation are not modelled.
- `print` diagnostics (console output only).
- `src/berean_sermon_search_engine/utils.py` and the two `main` functions, which only join fixed paths and call the stages in order. `utils.py` is not part of this model.
- Aliasing of the inner record dictionaries. A record is a map value, so only the outer dictionary is shared with the caller.
- TranscriptFormatter.MatchCountIsMatchedIds: requires distinct stems. A folder's file names are distinct, and so are their stems, except when the folder holds both `.txt` and `.txt.txt`, whose stems are both `.txt`. With a repeated stem the counter counts files, not ids.
