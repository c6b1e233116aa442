/** The merge stage: transcript text files are attached to the video-details
    records whose id is the file's stem, unless a record already carries a
    transcript. The folder listing and the file reads are inputs; loading and
    saving the JSON document are the constructor and the `records` field. */
module TranscriptFormatter {
  import opened PyStr

  /** One video's attributes (title and so on), field name to value. */
  type Record = map<string, string>

  /** The whole document: video id to record. */
  type Details = map<string, Record>

  const TranscriptField := "transcript"

  /** A `*.txt` file of the transcripts folder: its stem (the name without
      the `.txt` suffix, a candidate video id) and its decoded text. */
  datatype TranscriptFile = TranscriptFile(stem: string, text: string)

  function Stems(files: seq<TranscriptFile>): set<string> {
    set f | f in files :: f.stem
  }

  /** No two files share a stem. Files of one folder have distinct names, and
      distinct names give distinct stems except for a dot-file `.txt` beside
      `.txt.txt`, whose stems are both `.txt`. */
  predicate DistinctStems(files: seq<TranscriptFile>) {
    forall i, j :: 0 <= i < j < |files| ==> files[i].stem != files[j].stem
  }

  /** The effect of one loop iteration on the document. */
  function MergeFile(d: Details, f: TranscriptFile): (r: Details)
    ensures r.Keys == d.Keys
    ensures forall id :: id in d && id != f.stem ==> r[id] == d[id]
    ensures f.stem in d ==> TranscriptField in r[f.stem]
  {
    if f.stem in d then
      if TranscriptField in d[f.stem] then d
      else d[f.stem := d[f.stem][TranscriptField := Strip(f.text)]]
    else d
  }

  /** The document after the files have been merged in the given order. */
  function Merge(d: Details, files: seq<TranscriptFile>): (r: Details)
    ensures r.Keys == d.Keys
    decreases |files|
  {
    if files == [] then d
    else MergeFile(Merge(d, files[..|files| - 1]), files[|files| - 1])
  }

  /** The counter of the loop: files whose stem is a video id, whether the
      record was filled by this run or already had a transcript. */
  function MatchCount(ids: set<string>, files: seq<TranscriptFile>): (n: nat)
    ensures n <= |files|
    decreases |files|
  {
    if files == [] then 0
    else MatchCount(ids, files[..|files| - 1]) + (if files[|files| - 1].stem in ids then 1 else 0)
  }

  /** The in-memory video-details dictionary, updated in place. */
  class VideoDetails {
    var records: Details

    /** The dictionary as loaded from the JSON document. */
    constructor Load(data: Details)
      ensures records == data
    {
      records := data;
    }

    /** Walks the transcript files in folder order and fills in missing
        transcripts; returns this same dictionary and the final counter. */
    method AddTranscriptsToDetails(files: seq<TranscriptFile>) returns (updated: VideoDetails, count: nat)
      modifies this
      ensures updated == this
      ensures records == Merge(old(records), files)
      ensures count == MatchCount(old(records).Keys, files)
    {
      count := 0;
      for i := 0 to |files|
        invariant records == Merge(old(records), files[..i])
        invariant records.Keys == old(records).Keys
        invariant count == MatchCount(old(records).Keys, files[..i])
      {
        var transcriptFile := files[i];
        var videoId := transcriptFile.stem;
        var transcriptText := Strip(transcriptFile.text);
        assert files[..i + 1][..i] == files[..i];
        if videoId in records {
          if TranscriptField in records[videoId] {
            // already merged: skipped
          } else {
            records := records[videoId := records[videoId][TranscriptField := transcriptText]];
          }
          count := count + 1;
        } else {
          // no record with this id: skipped
        }
      }
      assert files[..|files|] == files;
      updated := this;
    }
  }

  /** Every field other than the transcript, of every record, is as it was;
      a record that already had a transcript is returned unchanged. */
  lemma {:induction false} MergeKeepsFields(d: Details, files: seq<TranscriptFile>, id: string)
    requires id in d
    ensures id in Merge(d, files)
    ensures Merge(d, files)[id] - {TranscriptField} == d[id] - {TranscriptField}
    ensures TranscriptField in d[id] ==> Merge(d, files)[id] == d[id]
    decreases |files|
  {
    if files != [] {
      var prev := Merge(d, files[..|files| - 1]);
      var f := files[|files| - 1];
      MergeKeepsFields(d, files[..|files| - 1], id);
      if f.stem == id && TranscriptField !in prev[id] {
        var r := prev[id];
        assert r[TranscriptField := Strip(f.text)] - {TranscriptField} == r - {TranscriptField};
      } else {
        assert Merge(d, files)[id] == prev[id];
      }
    }
  }

  /** A record no file names is returned unchanged. */
  lemma {:induction false} MergeUnmatched(d: Details, files: seq<TranscriptFile>, id: string)
    requires id in d && id !in Stems(files)
    ensures id in Merge(d, files) && Merge(d, files)[id] == d[id]
    decreases |files|
  {
    if files != [] {
      var init := files[..|files| - 1];
      assert Stems(init) <= Stems(files);
      MergeUnmatched(d, init, id);
    }
  }

  /** A record without a transcript that a file names ends up with the
      stripped text of the first file with that stem as its transcript, and
      nothing else in it changes; later files with the same stem are skipped. */
  lemma {:induction false} MergeAddsStripped(d: Details, files: seq<TranscriptFile>, j: nat)
    requires j < |files| && forall i :: 0 <= i < j ==> files[i].stem != files[j].stem
    requires files[j].stem in d && TranscriptField !in d[files[j].stem]
    ensures files[j].stem in Merge(d, files)
    ensures Merge(d, files)[files[j].stem] == d[files[j].stem][TranscriptField := Strip(files[j].text)]
    decreases |files|
  {
    var id := files[j].stem;
    var init := files[..|files| - 1];
    if j == |files| - 1 {
      forall f | f in init ensures f.stem != id {
        var i :| 0 <= i < |init| && init[i] == f;
        assert files[i] == f;
      }
      MergeUnmatched(d, init, id);
    } else {
      assert forall i :: 0 <= i < j ==> init[i] == files[i];
      MergeAddsStripped(d, init, j);
    }
  }

  /** After a merge every record some file names holds a transcript. */
  lemma {:induction false} MergeFillsMatched(d: Details, files: seq<TranscriptFile>, id: string)
    requires id in d && id in Stems(files)
    ensures id in Merge(d, files) && TranscriptField in Merge(d, files)[id]
    decreases |files|
  {
    var init := files[..|files| - 1];
    if files[|files| - 1].stem != id {
      assert id in Stems(init) by {
        var f :| f in files && f.stem == id;
        var i :| 0 <= i < |files| && files[i] == f;
        assert init[i] == f;
      }
      MergeFillsMatched(d, init, id);
    }
  }

  /** Files that all name records already holding a transcript (or no record
      at all) leave the document as it is, whatever their text. */
  lemma {:induction false} MergeNoop(d: Details, files: seq<TranscriptFile>)
    requires forall f :: f in files && f.stem in d ==> TranscriptField in d[f.stem]
    ensures Merge(d, files) == d
    decreases |files|
  {
    if files != [] {
      var init := files[..|files| - 1];
      assert forall f :: f in init ==> f in files;
      MergeNoop(d, init);
      assert files[|files| - 1] in files;
    }
  }

  /** Running the merge again on its own output, with the same files or a
      subset of them, even with different contents, changes nothing. */
  lemma MergeIdempotent(d: Details, files: seq<TranscriptFile>, again: seq<TranscriptFile>)
    requires Stems(again) <= Stems(files)
    ensures Merge(Merge(d, files), again) == Merge(d, files)
  {
    var m := Merge(d, files);
    forall f | f in again && f.stem in m
      ensures TranscriptField in m[f.stem]
    {
      assert f.stem in Stems(again);
      MergeFillsMatched(d, files, f.stem);
    }
    MergeNoop(m, again);
  }

  /** With distinct stems the final counter is the number of video ids that
      have a transcript file, newly merged or not. */
  lemma {:induction false} MatchCountIsMatchedIds(ids: set<string>, files: seq<TranscriptFile>)
    requires DistinctStems(files)
    ensures MatchCount(ids, files) == |Stems(files) * ids|
    decreases |files|
  {
    if files != [] {
      var init := files[..|files| - 1];
      var last := files[|files| - 1].stem;
      SplitLastFile(files);
      MatchCountIsMatchedIds(ids, init);
      if last in ids {
        assert Stems(files) * ids == (Stems(init) * ids) + {last};
      } else {
        assert Stems(files) * ids == Stems(init) * ids;
      }
    }
  }

  /** Taking the last file off a folder listing. */
  lemma SplitLastFile(files: seq<TranscriptFile>)
    requires files != []
    ensures Stems(files) == Stems(files[..|files| - 1]) + {files[|files| - 1].stem}
    ensures DistinctStems(files) ==>
      DistinctStems(files[..|files| - 1]) && files[|files| - 1].stem !in Stems(files[..|files| - 1])
  {
    var init := files[..|files| - 1];
    assert files == init + [files[|files| - 1]];
    if DistinctStems(files) {
      forall f | f in init ensures f.stem != files[|files| - 1].stem {
        var i :| 0 <= i < |init| && init[i] == f;
        assert files[i] == f;
      }
    }
  }

  /** A transcript file for an unknown id adds nothing. */
  lemma UnmatchedExample()
    ensures Merge(map["v1" := map["title" := "A"]], [TranscriptFile("v2", "Hello world")])
         == map["v1" := map["title" := "A"]]
    ensures MatchCount({"v1"}, [TranscriptFile("v2", "Hello world")]) == 0
  {
  }

  /** A transcript file for a known id without a transcript is attached,
      stripped, beside the record's other fields. */
  lemma MatchExample(text: string)
    ensures Merge(map["v1" := map["title" := "A"]], [TranscriptFile("v1", text)])
         == map["v1" := map["title" := "A", "transcript" := Strip(text)]]
    ensures MatchCount({"v1"}, [TranscriptFile("v1", text)]) == 1
  {
    var d: Details := map["v1" := map["title" := "A"]];
    var files := [TranscriptFile("v1", text)];
    var m := Merge(d, files);
    assert m["v1"] == map["title" := "A", "transcript" := Strip(text)] by {
      MergeAddsStripped(d, files, 0);
    }
    assert m.Keys == {"v1"};
  }



}
