/** The fetch stage: the video-details document and the transcript files are
    downloaded from the remote repository. Every remote request is an oracle
    `fetch` from URL to response (or, for the two JSON API calls, the parsed
    response itself), and every file write is an entry of an output log. */
module GetData {
  import opened PyStr

  datatype Option<T> = None | Some(value: T)

  /** A remote response once `raise_for_status` has looked at it: a body, or
      an error status that raises. */
  datatype Response<T> = Ok(body: T) | ErrorStatus

  /** Why a stage stopped early. */
  datatype Failure = RequestFailed(url: string) | DownloadUrlNotFound

  /** A file the stage wrote into its local folder: name and content. */
  datatype WrittenFile = WrittenFile(name: string, text: string)

  const Owner: string := "lawwu"
  const Repo: string := "berean_transcripts"
  const Branch: string := "main"

  const ContentsApiUrl: string :=
    "https://api.github.com/repos/lawwu/berean_transcripts/contents/data/video_details_cache.json"
  const DownloadUrlField: string := "download_url"
  const VideoDetailsFileName: string := "video_details_cache.json"

  const TreeApiUrl: string :=
    "https://api.github.com/repos/" + Owner + "/" + Repo + "/git/trees/" + Branch + "?recursive=1"
  const RawUrlPrefix: string :=
    "https://raw.githubusercontent.com/" + Owner + "/" + Repo + "/" + Branch + "/"
  const BlobType: string := "blob"
  const TranscriptsPrefix: string := "data/transcripts/"

  // ---------------------------------------------------------------------
  // The video-details document
  // ---------------------------------------------------------------------

  /** The file-metadata object returned by the contents API, as string fields. */
  type Metadata = map<string, string>

  /** What `download_video_details` did: the URLs it requested in order, the
      file it wrote if any, and the error it raised if any. */
  datatype DetailsRun = DetailsRun(requests: seq<string>, written: Option<WrittenFile>, failure: Option<Failure>)

  /** `file_metadata.get("download_url")` is truthy. */
  predicate HasDownloadUrl(meta: Metadata) {
    DownloadUrlField in meta && meta[DownloadUrlField] != ""
  }

  /** Fetch the metadata, check it names a download URL, fetch that URL and
      save its text as the raw video-details document. */
  function DownloadVideoDetails(metadata: Response<Metadata>, fetch: string -> Response<string>): (r: DetailsRun)
    ensures 1 <= |r.requests| <= 2 && r.requests[0] == ContentsApiUrl
    ensures r.written.Some? <==> r.failure.None?
    ensures r.failure == Some(DownloadUrlNotFound) <==> metadata.Ok? && !HasDownloadUrl(metadata.body)
    ensures r.failure == Some(DownloadUrlNotFound) ==> |r.requests| == 1
    ensures metadata.ErrorStatus? ==> r.requests == [ContentsApiUrl] && r.failure == Some(RequestFailed(ContentsApiUrl))
    ensures r.written.Some? ==>
      && metadata.Ok? && HasDownloadUrl(metadata.body)
      && r.requests == [ContentsApiUrl, metadata.body[DownloadUrlField]]
      && r.written.value.name == VideoDetailsFileName
      && fetch(metadata.body[DownloadUrlField]) == Ok(r.written.value.text)
    ensures metadata.Ok? && HasDownloadUrl(metadata.body) ==>
      && r.requests == [ContentsApiUrl, metadata.body[DownloadUrlField]]
      && (fetch(metadata.body[DownloadUrlField]).Ok? ==>
            r.written == Some(WrittenFile(VideoDetailsFileName, fetch(metadata.body[DownloadUrlField]).body)))
      && (fetch(metadata.body[DownloadUrlField]).ErrorStatus? ==>
            r.failure == Some(RequestFailed(metadata.body[DownloadUrlField])))
  {
    match metadata
    case ErrorStatus => DetailsRun([ContentsApiUrl], None, Some(RequestFailed(ContentsApiUrl)))
    case Ok(meta) =>
      if !HasDownloadUrl(meta) then DetailsRun([ContentsApiUrl], None, Some(DownloadUrlNotFound))
      else
        var url := meta[DownloadUrlField];
        match fetch(url)
        case ErrorStatus => DetailsRun([ContentsApiUrl, url], None, Some(RequestFailed(url)))
        case Ok(text) => DetailsRun([ContentsApiUrl, url], Some(WrittenFile(VideoDetailsFileName, text)), None)
  }

  // ---------------------------------------------------------------------
  // The transcript files
  // ---------------------------------------------------------------------

  /** An item of the recursive tree listing: its `type` and its `path`. */
  datatype TreeEntry = TreeEntry(kind: string, path: string)

  /** The tree-listing object; its `tree` array may be absent. */
  datatype TreeListing = TreeListing(tree: Option<seq<TreeEntry>>)

  /** `tree_data.get("tree", [])`. */
  function TreeOf(listing: TreeListing): seq<TreeEntry> {
    match listing.tree
    case Some(items) => items
    case None => []
  }

  predicate IsTranscriptBlob(e: TreeEntry) {
    e.kind == BlobType && StartsWith(e.path, TranscriptsPrefix)
  }

  /** The listing restricted to the blobs under the transcripts folder, in
      listing order. */
  function TranscriptEntries(tree: seq<TreeEntry>): (r: seq<TreeEntry>)
    ensures forall e :: e in r <==> e in tree && IsTranscriptBlob(e)
    ensures |r| <= |tree|
  {
    if tree == [] then []
    else (if IsTranscriptBlob(tree[0]) then [tree[0]] else []) + TranscriptEntries(tree[1..])
  }

  /** The filter keeps the listing order and repeated entries: filtering a
      concatenation concatenates the filtered parts. */
  lemma {:induction false} TranscriptEntriesAppend(a: seq<TreeEntry>, b: seq<TreeEntry>)
    ensures TranscriptEntries(a + b) == TranscriptEntries(a) + TranscriptEntries(b)
    decreases |a|
  {
    if a != [] {
      assert (a + b)[1..] == a[1..] + b;
      TranscriptEntriesAppend(a[1..], b);
    } else {
      assert a + b == b;
    }
  }

  /** A single entry is kept exactly when it is a transcript blob. */
  lemma TranscriptEntriesSingle(e: TreeEntry)
    ensures TranscriptEntries([e]) == if IsTranscriptBlob(e) then [e] else []
  {
    assert [e][1..] == [];
  }

  /** `path.split("/")[-1]`. */
  function FileName(path: string): (name: string)
    ensures '/' !in path ==> name == path
  {
    var parts := Split(path, '/');
    parts[|parts| - 1]
  }

  /** The local name is the last segment of the path: it holds no `/`, it
      ends the path, and a `/` (or nothing) comes before it. */
  lemma FileNameIsLastSegment(path: string)
    ensures '/' !in FileName(path)
    ensures |FileName(path)| <= |path| && FileName(path) == path[|path| - |FileName(path)|..]
    ensures |FileName(path)| == |path| || path[|path| - |FileName(path)| - 1] == '/'
  {
    LastPiece(path, '/');
  }

  /** The raw-content URL of a path: the fixed owner/repo/branch prefix and
      then the whole path. */
  function RawUrl(path: string): (url: string)
    ensures |url| == |RawUrlPrefix| + |path|
    ensures url[..|RawUrlPrefix|] == RawUrlPrefix && url[|RawUrlPrefix|..] == path
  {
    RawUrlPrefix + path
  }

  function Names(es: seq<TreeEntry>): (r: seq<string>)
    ensures |r| == |es|
  {
    seq(|es|, j requires 0 <= j < |es| => FileName(es[j].path))
  }

  function Urls(es: seq<TreeEntry>): (r: seq<string>)
    ensures |r| == |es|
  {
    seq(|es|, j requires 0 <= j < |es| => RawUrl(es[j].path))
  }

  function WrittenNames(ws: seq<WrittenFile>): (r: seq<string>)
    ensures |r| == |ws|
  {
    seq(|ws|, j requires 0 <= j < |ws| => ws[j].name)
  }

  function ElemSet(s: seq<string>): set<string> {
    set x | x in s
  }

  /** What `download_transcripts` did: the URLs it requested in order, the
      files it wrote in order, its set of known local names, and the error
      it raised if any. */
  datatype TranscriptRun = TranscriptRun(
    requests: seq<string>, writes: seq<WrittenFile>, known: set<string>, failure: Option<Failure>)

  /** One iteration of the download loop, on a run that has not failed. */
  function Step(run: TranscriptRun, e: TreeEntry, fetch: string -> Response<string>): (r: TranscriptRun)
    ensures run.known <= r.known
    ensures FileName(e.path) in run.known ==> r == run
    ensures FileName(e.path) !in run.known ==>
      && r.requests == run.requests + [RawUrl(e.path)]
      && (fetch(RawUrl(e.path)).ErrorStatus? ==> r.failure == Some(RequestFailed(RawUrl(e.path))))
      && (fetch(RawUrl(e.path)).Ok? ==> r.failure == run.failure)
    ensures r.failure.None? ==> FileName(e.path) in r.known
  {
    var name := FileName(e.path);
    if name in run.known then run
    else
      var url := RawUrl(e.path);
      match fetch(url)
      case ErrorStatus =>
        run.(requests := run.requests + [url], failure := Some(RequestFailed(url)))
      case Ok(text) =>
        run.(requests := run.requests + [url], writes := run.writes + [WrittenFile(name, text)],
             known := run.known + {name})
  }

  /** The download loop over the filtered entries, starting from the names
      already in the local folder; the first failed fetch ends it. */
  function Reconcile(initial: set<string>, entries: seq<TreeEntry>, fetch: string -> Response<string>): (r: TranscriptRun)
    ensures |r.writes| <= |r.requests| <= |entries|
    decreases |entries|
  {
    if entries == [] then TranscriptRun([], [], initial, None)
    else
      var prev := Reconcile(initial, entries[..|entries| - 1], fetch);
      if prev.failure.Some? then prev else Step(prev, entries[|entries| - 1], fetch)
  }

  /** The reference plan: the entries whose name is neither local nor taken
      by an earlier entry, that is the first entry of each new name, in
      listing order. */
  function Pending(initial: set<string>, entries: seq<TreeEntry>): (p: seq<TreeEntry>)
    ensures |p| <= |entries|
    decreases |entries|
  {
    if entries == [] then []
    else
      var p := Pending(initial, entries[..|entries| - 1]);
      var e := entries[|entries| - 1];
      if FileName(e.path) in initial || FileName(e.path) in Names(p) then p else p + [e]
  }

  /** The whole `download_transcripts`: fetch the tree listing (its failure
      is fatal before anything is written), filter it, then run the loop. */
  function TranscriptDownload(listing: Response<TreeListing>, localNames: set<string>,
                              fetch: string -> Response<string>): (r: TranscriptRun)
    ensures |r.requests| >= 1 && r.requests[0] == TreeApiUrl
    ensures listing.ErrorStatus? ==> r.writes == [] && r.failure == Some(RequestFailed(TreeApiUrl))
    ensures localNames <= r.known
  {
    match listing
    case ErrorStatus => TranscriptRun([TreeApiUrl], [], localNames, Some(RequestFailed(TreeApiUrl)))
    case Ok(t) =>
      var es := TranscriptEntries(TreeOf(t));
      var run := Reconcile(localNames, es, fetch);
      ReconcileKnownGrows(localNames, es, fetch);
      run.(requests := [TreeApiUrl] + run.requests)
  }

  /** The loop as the source writes it: skip known names, otherwise fetch,
      write and remember the name; a failed fetch raises at once. */
  method DownloadTranscripts(listing: Response<TreeListing>, localNames: set<string>,
                             fetch: string -> Response<string>) returns (run: TranscriptRun)
    ensures run == TranscriptDownload(listing, localNames, fetch)
  {
    if listing.ErrorStatus? {
      return TranscriptRun([TreeApiUrl], [], localNames, Some(RequestFailed(TreeApiUrl)));
    }
    var transcriptFiles := TranscriptEntries(TreeOf(listing.body));
    var existingFiles := localNames;
    var requests: seq<string> := [];
    var writes: seq<WrittenFile> := [];
    for i := 0 to |transcriptFiles|
      invariant TranscriptRun(requests, writes, existingFiles, None)
             == Reconcile(localNames, transcriptFiles[..i], fetch)
    {
      var item := transcriptFiles[i];
      assert transcriptFiles[..i + 1][..i] == transcriptFiles[..i];
      assert Reconcile(localNames, transcriptFiles[..i + 1], fetch)
          == Step(TranscriptRun(requests, writes, existingFiles, None), item, fetch);
      var filename := FileName(item.path);
      if filename in existingFiles {
        // already downloaded: skipped
      } else {
        var rawUrl := RawUrl(item.path);
        var response := fetch(rawUrl);
        requests := requests + [rawUrl];
        if response.ErrorStatus? {
          ReconcileStopsAtFailure(localNames, transcriptFiles, i + 1, fetch);
          return TranscriptRun([TreeApiUrl] + requests, writes, existingFiles, Some(RequestFailed(rawUrl)));
        }
        writes := writes + [WrittenFile(filename, response.body)];
        existingFiles := existingFiles + {filename};
      }
    }
    assert transcriptFiles[..|transcriptFiles|] == transcriptFiles;
    run := TranscriptRun([TreeApiUrl] + requests, writes, existingFiles, None);
  }

  /** The set of known names only grows. */
  lemma {:induction false} ReconcileKnownGrows(initial: set<string>, entries: seq<TreeEntry>,
                                               fetch: string -> Response<string>)
    ensures initial <= Reconcile(initial, entries, fetch).known
    decreases |entries|
  {
    if entries != [] {
      ReconcileKnownGrows(initial, entries[..|entries| - 1], fetch);
    }
  }

  /** Once a fetch has failed, later entries are not processed. */
  lemma {:induction false} ReconcileStopsAtFailure(initial: set<string>, entries: seq<TreeEntry>, k: nat,
                                                    fetch: string -> Response<string>)
    requires k <= |entries|
    requires Reconcile(initial, entries[..k], fetch).failure.Some?
    ensures Reconcile(initial, entries, fetch) == Reconcile(initial, entries[..k], fetch)
    decreases |entries|
  {
    if k < |entries| {
      var init := entries[..|entries| - 1];
      assert init[..k] == entries[..k];
      ReconcileStopsAtFailure(initial, init, k, fetch);
    } else {
      assert entries[..k] == entries;
    }
  }

  /** Entry `k` is the first of the listing with its name, and that name is
      not local. */
  predicate FirstNew(initial: set<string>, entries: seq<TreeEntry>, k: nat)
    requires k < |entries|
  {
    && FileName(entries[k].path) !in initial
    && forall j :: 0 <= j < k ==> FileName(entries[j].path) != FileName(entries[k].path)
  }

  /** `p` picks the entries at the strictly increasing positions `idx`, and
      those are exactly the positions `FirstNew` holds at. */
  predicate SelectsFirstNew(initial: set<string>, entries: seq<TreeEntry>, p: seq<TreeEntry>, idx: seq<nat>) {
    && |idx| == |p|
    && (forall i :: 0 <= i < |idx| ==> idx[i] < |entries| && p[i] == entries[idx[i]])
    && (forall i, j :: 0 <= i < j < |idx| ==> idx[i] < idx[j])
    && (forall k :: 0 <= k < |entries| ==> (k in idx <==> FirstNew(initial, entries, k)))
  }

  /** The plan is the subsequence of the listing made of the first entry of
      each name that is not local, in listing order. */
  lemma {:induction false} PendingSelectsFirstNew(initial: set<string>, entries: seq<TreeEntry>)
    ensures exists idx :: SelectsFirstNew(initial, entries, Pending(initial, entries), idx)
    decreases |entries|
  {
    if entries == [] {
      assert SelectsFirstNew(initial, entries, Pending(initial, entries), []);
    } else {
      var init := entries[..|entries| - 1];
      PendingSelectsFirstNew(initial, init);
      var idx: seq<nat> :| SelectsFirstNew(initial, init, Pending(initial, init), idx);
      SelectsFirstNewExtend(initial, entries, idx);
    }
  }

  /** One more entry extends a selection of the shorter listing. */
  lemma SelectsFirstNewExtend(initial: set<string>, entries: seq<TreeEntry>, idx: seq<nat>)
    requires entries != []
    requires SelectsFirstNew(initial, entries[..|entries| - 1], Pending(initial, entries[..|entries| - 1]), idx)
    ensures exists idx' :: SelectsFirstNew(initial, entries, Pending(initial, entries), idx')
  {
    var k := |entries| - 1;
    var init := entries[..k];
    var p := Pending(initial, init);
    forall k' | 0 <= k' < k ensures FirstNew(initial, entries, k') == FirstNew(initial, init, k') {
      assert forall j :: 0 <= j <= k' ==> entries[j] == init[j];
    }
    FirstNewLast(initial, entries);
    if FirstNew(initial, entries, k) {
      assert Pending(initial, entries) == p + [entries[k]];
      SelectsAppendNew(initial, entries, p, idx);
    } else {
      assert Pending(initial, entries) == p;
      SelectsAppendOld(initial, entries, p, idx);
    }
  }

  /** The last entry is selected. */
  lemma SelectsAppendNew(initial: set<string>, entries: seq<TreeEntry>, p: seq<TreeEntry>, idx: seq<nat>)
    requires entries != []
    requires SelectsFirstNew(initial, entries[..|entries| - 1], p, idx)
    requires forall k' :: 0 <= k' < |entries| - 1 ==>
      FirstNew(initial, entries, k') == FirstNew(initial, entries[..|entries| - 1], k')
    requires FirstNew(initial, entries, |entries| - 1)
    ensures SelectsFirstNew(initial, entries, p + [entries[|entries| - 1]], idx + [|entries| - 1])
  {
    var k := |entries| - 1;
    var q := p + [entries[k]];
    var jdx := idx + [k];
    forall i | 0 <= i < |jdx| ensures jdx[i] < |entries| && q[i] == entries[jdx[i]] {
      if i < |idx| {
        assert jdx[i] == idx[i] && q[i] == p[i];
        assert entries[..k][idx[i]] == entries[idx[i]];
      }
    }
    forall i, j | 0 <= i < j < |jdx| ensures jdx[i] < jdx[j] {
      if j < |idx| {
        assert jdx[i] == idx[i] && jdx[j] == idx[j];
      }
    }
    forall k' | 0 <= k' < |entries| ensures k' in jdx <==> FirstNew(initial, entries, k') {
      if k' < k {
        assert k' in jdx <==> k' in idx;
      }
    }
  }

  /** The last entry is not selected. */
  lemma SelectsAppendOld(initial: set<string>, entries: seq<TreeEntry>, p: seq<TreeEntry>, idx: seq<nat>)
    requires entries != []
    requires SelectsFirstNew(initial, entries[..|entries| - 1], p, idx)
    requires forall k' :: 0 <= k' < |entries| - 1 ==>
      FirstNew(initial, entries, k') == FirstNew(initial, entries[..|entries| - 1], k')
    requires !FirstNew(initial, entries, |entries| - 1)
    ensures SelectsFirstNew(initial, entries, p, idx)
  {
    var k := |entries| - 1;
    forall i | 0 <= i < |idx| ensures idx[i] < |entries| && p[i] == entries[idx[i]] {
      assert entries[..k][idx[i]] == entries[idx[i]];
    }
    assert k !in idx;
  }

  /** The last entry is the first new one of its name exactly when the plan
      of the earlier entries neither finds its name local nor planned. */
  lemma FirstNewLast(initial: set<string>, entries: seq<TreeEntry>)
    requires entries != []
    ensures var init := entries[..|entries| - 1];
      var name := FileName(entries[|entries| - 1].path);
      FirstNew(initial, entries, |entries| - 1) <==> !(name in initial || name in Names(Pending(initial, init)))
  {
    var k := |entries| - 1;
    var init := entries[..k];
    var p := Pending(initial, init);
    var name := FileName(entries[k].path);
    PendingFromEntries(initial, init);
    PendingCovers(initial, init);
    if name !in initial && name in Names(p) {
      var i :| 0 <= i < |p| && Names(p)[i] == name;
      assert p[i] in init;
      var j :| 0 <= j < k && init[j] == p[i];
      assert FileName(entries[j].path) == name;
    }
    if name !in initial && !FirstNew(initial, entries, k) {
      var j :| 0 <= j < k && FileName(entries[j].path) == name;
      assert init[j] in init;
    }
  }

  /** Every planned entry is an entry of the listing. */
  lemma {:induction false} PendingFromEntries(initial: set<string>, entries: seq<TreeEntry>)
    ensures forall e :: e in Pending(initial, entries) ==> e in entries
    decreases |entries|
  {
    if entries != [] {
      var init := entries[..|entries| - 1];
      PendingFromEntries(initial, init);
      assert forall x :: x in init ==> x in entries;
    }
  }

  /** No planned name is a local one, and no two planned entries share a name. */
  lemma {:induction false} PendingNamesFresh(initial: set<string>, entries: seq<TreeEntry>)
    ensures forall j :: 0 <= j < |Names(Pending(initial, entries))| ==> Names(Pending(initial, entries))[j] !in initial
    ensures forall i, j :: 0 <= i < j < |Names(Pending(initial, entries))| ==>
      Names(Pending(initial, entries))[i] != Names(Pending(initial, entries))[j]
    decreases |entries|
  {
    if entries != [] {
      var init := entries[..|entries| - 1];
      var e := entries[|entries| - 1];
      var p' := Pending(initial, init);
      PendingNamesFresh(initial, init);
      var name := FileName(e.path);
      if !(name in initial || name in Names(p')) {
        var names := Names(Pending(initial, entries));
        assert Pending(initial, entries) == p' + [e];
        assert names == Names(p') + [name];
        forall i | 0 <= i < |p'|
          ensures names[i] == Names(p')[i] && names[i] != name
        {
          assert Names(p')[i] in Names(p');
        }
        assert names[|p'|] == name;
        forall j | 0 <= j < |names| ensures names[j] !in initial {
          if j < |p'| { assert names[j] == Names(p')[j]; }
        }
      } else {
        assert Pending(initial, entries) == p';
        assert Names(Pending(initial, entries)) == Names(p');
      }
    }
  }

  /** Every listed name is local or planned. */
  lemma {:induction false} PendingCovers(initial: set<string>, entries: seq<TreeEntry>)
    ensures forall e :: e in entries ==> FileName(e.path) in initial || FileName(e.path) in Names(Pending(initial, entries))
    decreases |entries|
  {
    if entries != [] {
      var init := entries[..|entries| - 1];
      var e := entries[|entries| - 1];
      var p' := Pending(initial, init);
      PendingCovers(initial, init);
      assert entries == init + [e];
      if !(FileName(e.path) in initial || FileName(e.path) in Names(p')) {
        var p := p' + [e];
        assert Names(p) == Names(p') + [FileName(e.path)];
      }
    }
  }

  /** A run has followed the plan `p`: it requested the planned URLs in
      order, wrote each fetched text under the planned name, knows exactly
      the local and the written names, and either went through the whole
      plan or stopped at the first failed fetch. */
  predicate OnPlan(r: TranscriptRun, initial: set<string>, p: seq<TreeEntry>, fetch: string -> Response<string>) {
    && LogOnPlan(r, p, fetch)
    && r.known == initial + ElemSet(WrittenNames(r.writes))
    && (r.failure.None? ==> |r.requests| == |p|)
    && (r.failure.Some? ==>
          r.failure == Some(RequestFailed(Urls(p)[|r.writes|])) && fetch(Urls(p)[|r.writes|]) == ErrorStatus)
  }

  /** The requests and the writes of a run are a prefix of the plan's. */
  predicate LogOnPlan(r: TranscriptRun, p: seq<TreeEntry>, fetch: string -> Response<string>) {
    && |r.requests| <= |p|
    && |r.requests| == |r.writes| + (if r.failure.Some? then 1 else 0)
    && r.requests == Urls(p)[..|r.requests|]
    && WrittenNames(r.writes) == Names(p)[..|r.writes|]
    && (forall j :: 0 <= j < |r.writes| ==> fetch(Urls(p)[j]) == Ok(r.writes[j].text))
  }

  /** A run that has stopped stays on a longer plan. */
  lemma OnPlanStopped(r: TranscriptRun, initial: set<string>, p: seq<TreeEntry>, e: TreeEntry,
                      fetch: string -> Response<string>)
    requires OnPlan(r, initial, p, fetch) && r.failure.Some?
    ensures OnPlan(r, initial, p + [e], fetch)
  {
    var q := p + [e];
    assert Urls(q)[..|Urls(p)|] == Urls(p);
    assert Names(q)[..|Names(p)|] == Names(p);
    assert Urls(q)[..|r.requests|] == Urls(p)[..|r.requests|];
    assert Names(q)[..|r.writes|] == Names(p)[..|r.writes|];
  }

  /** A run that has gone through its plan and meets a new name fetches it,
      and then stays on the plan extended by that entry. */
  lemma OnPlanFetch(r: TranscriptRun, initial: set<string>, p: seq<TreeEntry>, e: TreeEntry,
                    fetch: string -> Response<string>)
    requires OnPlan(r, initial, p, fetch) && r.failure.None?
    requires FileName(e.path) !in r.known
    ensures OnPlan(Step(r, e, fetch), initial, p + [e], fetch)
  {
    var name := FileName(e.path);
    var url := RawUrl(e.path);
    UrlsAppend(p, e);
    NamesAppend(p, e);
    match fetch(url)
    case Ok(text) =>
      var w := WrittenFile(name, text);
      WrittenNamesAppend(r.writes, w);
      assert Step(r, e, fetch) == r.(requests := r.requests + [url], writes := r.writes + [w], known := r.known + {name});
      OnPlanWrite(r, initial, p, p + [e], url, w, fetch);
    case ErrorStatus =>
      assert Step(r, e, fetch) == r.(requests := r.requests + [url], failure := Some(RequestFailed(url)));
      OnPlanFail(r, initial, p, p + [e], url, FileName(e.path), fetch);
  }

  lemma UrlsAppend(p: seq<TreeEntry>, e: TreeEntry)
    ensures Urls(p + [e]) == Urls(p) + [RawUrl(e.path)]
  {
  }

  lemma NamesAppend(p: seq<TreeEntry>, e: TreeEntry)
    ensures Names(p + [e]) == Names(p) + [FileName(e.path)]
  {
  }

  lemma WrittenNamesAppend(ws: seq<WrittenFile>, w: WrittenFile)
    ensures WrittenNames(ws + [w]) == WrittenNames(ws) + [w.name]
    ensures ElemSet(WrittenNames(ws + [w])) == ElemSet(WrittenNames(ws)) + {w.name}
  {
    assert WrittenNames(ws + [w]) == WrittenNames(ws) + [w.name];
  }

  /** The failing fetch of the next planned URL. */
  lemma OnPlanFail(r: TranscriptRun, initial: set<string>, p: seq<TreeEntry>, q: seq<TreeEntry>,
                   url: string, name: string, fetch: string -> Response<string>)
    requires OnPlan(r, initial, p, fetch) && r.failure.None?
    requires |q| == |p| + 1 && Urls(q) == Urls(p) + [url] && Names(q) == Names(p) + [name]
    requires fetch(url) == ErrorStatus
    ensures OnPlan(r.(requests := r.requests + [url], failure := Some(RequestFailed(url))), initial, q, fetch)
  {
  }

  /** The successful fetch of the next planned URL, and its write. */
  lemma OnPlanWrite(r: TranscriptRun, initial: set<string>, p: seq<TreeEntry>, q: seq<TreeEntry>,
                    url: string, w: WrittenFile, fetch: string -> Response<string>)
    requires OnPlan(r, initial, p, fetch) && r.failure.None?
    requires |q| == |p| + 1 && Urls(q) == Urls(p) + [url] && Names(q) == Names(p) + [w.name]
    requires WrittenNames(r.writes + [w]) == WrittenNames(r.writes) + [w.name]
    requires ElemSet(WrittenNames(r.writes + [w])) == ElemSet(WrittenNames(r.writes)) + {w.name}
    requires fetch(url) == Ok(w.text)
    ensures OnPlan(r.(requests := r.requests + [url], writes := r.writes + [w], known := r.known + {w.name}),
                   initial, q, fetch)
  {
    LogOnPlanWrite(r, p, q, url, w, fetch);
  }

  lemma LogOnPlanWrite(r: TranscriptRun, p: seq<TreeEntry>, q: seq<TreeEntry>,
                       url: string, w: WrittenFile, fetch: string -> Response<string>)
    requires LogOnPlan(r, p, fetch) && r.failure.None? && |r.requests| == |p|
    requires |q| == |p| + 1 && Urls(q) == Urls(p) + [url] && Names(q) == Names(p) + [w.name]
    requires WrittenNames(r.writes + [w]) == WrittenNames(r.writes) + [w.name]
    requires fetch(url) == Ok(w.text)
    ensures LogOnPlan(r.(requests := r.requests + [url], writes := r.writes + [w]), q, fetch)
  {
    var ws := r.writes + [w];
    forall j | 0 <= j < |ws|
      ensures fetch(Urls(q)[j]) == Ok(ws[j].text)
    {
      if j < |r.writes| {
        assert Urls(q)[j] == Urls(p)[j];
      }
    }
  }

  /** The loop follows the reference plan. */
  lemma {:induction false} ReconcileFollowsPending(initial: set<string>, entries: seq<TreeEntry>,
                                                   fetch: string -> Response<string>)
    ensures OnPlan(Reconcile(initial, entries, fetch), initial, Pending(initial, entries), fetch)
    decreases |entries|
  {
    if entries != [] {
      var init := entries[..|entries| - 1];
      var e := entries[|entries| - 1];
      var prev := Reconcile(initial, init, fetch);
      var p' := Pending(initial, init);
      ReconcileFollowsPending(initial, init, fetch);
      var name := FileName(e.path);
      if prev.failure.Some? {
        OnPlanStopped(prev, initial, p', e, fetch);
      } else {
        assert WrittenNames(prev.writes) == Names(p');
        assert name in prev.known <==> name in initial || name in Names(p');
        if name !in prev.known {
          OnPlanFetch(prev, initial, p', e, fetch);
        }
      }
    }
  }

  /** Every written name is new to the local folder, and no name is written
      twice in one run, even when the listing repeats it. */
  lemma ReconcileWritesNewNamesOnce(initial: set<string>, entries: seq<TreeEntry>,
                                    fetch: string -> Response<string>)
    ensures forall j :: 0 <= j < |Reconcile(initial, entries, fetch).writes| ==>
      Reconcile(initial, entries, fetch).writes[j].name !in initial
    ensures forall i, j :: 0 <= i < j < |Reconcile(initial, entries, fetch).writes| ==>
      Reconcile(initial, entries, fetch).writes[i].name != Reconcile(initial, entries, fetch).writes[j].name
  {
    var r := Reconcile(initial, entries, fetch);
    var p := Pending(initial, entries);
    ReconcileFollowsPending(initial, entries, fetch);
    PendingNamesFresh(initial, entries);
    assert forall j :: 0 <= j < |r.writes| ==> r.writes[j].name == WrittenNames(r.writes)[j] == Names(p)[j];
  }

  /** No URL is requested for an entry whose name is already local. */
  lemma ReconcileSkipsLocalNames(initial: set<string>, entries: seq<TreeEntry>,
                                 fetch: string -> Response<string>, e: TreeEntry)
    requires e in entries && FileName(e.path) in initial
    ensures RawUrl(e.path) !in Reconcile(initial, entries, fetch).requests
  {
    var r := Reconcile(initial, entries, fetch);
    var p := Pending(initial, entries);
    ReconcileFollowsPending(initial, entries, fetch);
    PendingNamesFresh(initial, entries);
    forall j | 0 <= j < |r.requests|
      ensures r.requests[j] != RawUrl(e.path)
    {
      assert FileName(p[j].path) == Names(p)[j] && Names(p)[j] !in initial;
      assert p[j].path != e.path;
      assert RawUrl(p[j].path)[|RawUrlPrefix|..] != RawUrl(e.path)[|RawUrlPrefix|..];
    }
  }

  /** A run that completes knows the local names and the names of all the
      filtered entries, and nothing else. */
  lemma ReconcileKnownAfterSuccess(initial: set<string>, entries: seq<TreeEntry>,
                                   fetch: string -> Response<string>)
    requires Reconcile(initial, entries, fetch).failure.None?
    ensures Reconcile(initial, entries, fetch).known == initial + ElemSet(Names(entries))
  {
    var r := Reconcile(initial, entries, fetch);
    var p := Pending(initial, entries);
    assert r.known == initial + ElemSet(Names(p)) by {
      ReconcileFollowsPending(initial, entries, fetch);
      assert WrittenNames(r.writes) == Names(p);
    }
    assert ElemSet(Names(p)) <= ElemSet(Names(entries)) by {
      PendingFromEntries(initial, entries);
      forall n | n in ElemSet(Names(p))
        ensures n in ElemSet(Names(entries))
      {
        var j :| 0 <= j < |p| && Names(p)[j] == n;
        assert p[j] in p;
        var k :| 0 <= k < |entries| && entries[k] == p[j];
        assert Names(entries)[k] == n;
      }
    }
    assert ElemSet(Names(entries)) <= initial + ElemSet(Names(p)) by {
      PendingCovers(initial, entries);
      forall n | n in ElemSet(Names(entries))
        ensures n in initial || n in ElemSet(Names(p))
      {
        var k :| 0 <= k < |entries| && Names(entries)[k] == n;
        assert entries[k] in entries;
      }
    }
  }

  /** When every listed name is already known, nothing is planned. */
  lemma {:induction false} PendingEmpty(initial: set<string>, entries: seq<TreeEntry>)
    requires forall e :: e in entries ==> FileName(e.path) in initial
    ensures Pending(initial, entries) == []
    decreases |entries|
  {
    if entries != [] {
      var init := entries[..|entries| - 1];
      assert forall e :: e in init ==> e in entries;
      PendingEmpty(initial, init);
      assert entries[|entries| - 1] in entries;
    }
  }

  /** Running the download again after a complete run, against the same
      listing, fetches and writes nothing and knows the same names, even if
      the remote contents have changed. */
  lemma DownloadIdempotent(listing: Response<TreeListing>, localNames: set<string>,
                           fetch: string -> Response<string>, fetchAgain: string -> Response<string>)
    requires TranscriptDownload(listing, localNames, fetch).failure.None?
    ensures var first := TranscriptDownload(listing, localNames, fetch);
      var second := TranscriptDownload(listing, first.known, fetchAgain);
      second == TranscriptRun([TreeApiUrl], [], first.known, None)
  {
    var es := TranscriptEntries(TreeOf(listing.body));
    var first := Reconcile(localNames, es, fetch);
    ReconcileKnownAfterSuccess(localNames, es, fetch);
    forall e | e in es ensures FileName(e.path) in first.known {
      var k :| 0 <= k < |es| && es[k] == e;
      assert Names(es)[k] == FileName(e.path);
    }
    PendingEmpty(first.known, es);
    ReconcileFollowsPending(first.known, es, fetchAgain);
    var second := Reconcile(first.known, es, fetchAgain);
    assert second.requests == [] && second.writes == [];
    assert WrittenNames([]) == [];
  }

  /** Each URL the loop requests is the raw URL of a listed entry whose
      name is not local. */
  lemma ReconcileFetchesOnlyNew(initial: set<string>, entries: seq<TreeEntry>,
                                fetch: string -> Response<string>, j: nat)
    requires j < |Reconcile(initial, entries, fetch).requests|
    ensures exists e :: e in entries && FileName(e.path) !in initial
                        && Reconcile(initial, entries, fetch).requests[j] == RawUrl(e.path)
  {
    var r := Reconcile(initial, entries, fetch);
    var p := Pending(initial, entries);
    assert r.requests == Urls(p)[..|r.requests|] && |r.requests| <= |p| by {
      ReconcileFollowsPending(initial, entries, fetch);
    }
    PendingFromEntries(initial, entries);
    PendingNamesFresh(initial, entries);
    var e := p[j];
    assert e in p;
    assert FileName(e.path) == Names(p)[j];
    assert r.requests[j] == Urls(p)[j];
  }

  /** The raw URLs of the listing's transcript blobs whose name is not local. */
  function NewTranscriptUrls(listing: TreeListing, localNames: set<string>): set<string> {
    set e | e in TreeOf(listing) && IsTranscriptBlob(e) && FileName(e.path) !in localNames :: RawUrl(e.path)
  }

  /** Only transcript blobs of the listing are fetched, and each only when
      its name is not local. */
  lemma DownloadFetchesOnlyNewTranscripts(listing: Response<TreeListing>, localNames: set<string>,
                                          fetch: string -> Response<string>)
    requires listing.Ok?
    ensures forall j :: 1 <= j < |TranscriptDownload(listing, localNames, fetch).requests| ==>
      TranscriptDownload(listing, localNames, fetch).requests[j] in NewTranscriptUrls(listing.body, localNames)
  {
    var es := TranscriptEntries(TreeOf(listing.body));
    var r := Reconcile(localNames, es, fetch);
    var top := TranscriptDownload(listing, localNames, fetch);
    assert top.requests == [TreeApiUrl] + r.requests;
    forall j | 1 <= j < |top.requests|
      ensures top.requests[j] in NewTranscriptUrls(listing.body, localNames)
    {
      assert top.requests[j] == r.requests[j - 1];
      ReconcileFetchesOnlyNew(localNames, es, fetch, j - 1);
      var e :| e in es && FileName(e.path) !in localNames && r.requests[j - 1] == RawUrl(e.path);
      assert e in TreeOf(listing.body) && IsTranscriptBlob(e);
    }
  }



  /** Every written file holds the text fetched for a transcript blob of the
      listing that has the file's name. */
  lemma DownloadWritesFetchedTranscripts(listing: Response<TreeListing>, localNames: set<string>,
                                         fetch: string -> Response<string>)
    requires listing.Ok?
    ensures var r := TranscriptDownload(listing, localNames, fetch);
      forall j :: 0 <= j < |r.writes| ==>
        exists e :: e in TreeOf(listing.body) && IsTranscriptBlob(e) && FileName(e.path) == r.writes[j].name
                    && fetch(RawUrl(e.path)) == Ok(r.writes[j].text)
  {
    var es := TranscriptEntries(TreeOf(listing.body));
    var r := Reconcile(localNames, es, fetch);
    var p := Pending(localNames, es);
    assert LogOnPlan(r, p, fetch) by {
      ReconcileFollowsPending(localNames, es, fetch);
    }
    PendingFromEntries(localNames, es);
    forall j | 0 <= j < |r.writes|
      ensures exists e :: e in TreeOf(listing.body) && IsTranscriptBlob(e) && FileName(e.path) == r.writes[j].name
                          && fetch(RawUrl(e.path)) == Ok(r.writes[j].text)
    {
      var e := p[j];
      assert e in p;
      assert FileName(e.path) == Names(p)[j] == WrittenNames(r.writes)[j];
      assert Urls(p)[j] == RawUrl(e.path);
    }
  }
}
