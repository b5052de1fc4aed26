/** Win32toSac.py: the event id taken from an event directory, the file and
    directory names used for each network, and the STATIONS table built from
    the SAC headers of the converted files. The conversion itself and the
    header reads are outside the model; the header values arrive as data. */
module Win32ToSac {
  import opened Text
  import HinetDownload

  // ---------------------------------------------------------------------------
  // Names

  /** path.split('/')[-1]. */
  function EventIdOf(path: string): string {
    LastPiece(path, '/')
  }

  /** An event directory '<dir>/<evid>' yields evid back. */
  lemma EventIdOfDirectory(dir: string, evid: string)
    requires '/' !in evid
    ensures EventIdOf(dir + "/" + evid) == evid
  {
    LastPieceAfter(dir, '/', evid);
  }

  datatype NetPaths = NetPaths(data: string, ctable: string, sacDir: string, instrumentDir: string)

  /** The four names of lines 55-58 for one event directory and network. */
  function NetworkPaths(path: string, outputDir: string, iid: string): NetPaths {
    var evid := EventIdOf(path);
    NetPaths(path + "/" + evid + "_" + iid + ".cnt", path + "/" + iid + ".ch",
             outputDir + "/" + evid + "/SAC", outputDir + "/" + evid + "/instrument")
  }

  /** The converter opens exactly the files the downloader wrote: for the
      directory '<out_dir>/<evid>' that Continuous_Waveform_Hinet.py fills,
      the data and channel-table paths are that directory joined with the
      downloader's file names, and the outputs go under '<output_dir>/<evid>'. */
  lemma ReadsDownloadedFiles(outDir: string, evid: string, iid: string, outputDir: string)
    requires '/' !in evid
    ensures var f := HinetDownload.NetworkFiles(evid, iid, outDir);
      var p := NetworkPaths(f.outdir, outputDir, iid);
      p.data == f.outdir + "/" + f.data && p.ctable == f.outdir + "/" + f.ctable
      && p.sacDir == outputDir + "/" + evid + "/SAC"
      && p.instrumentDir == outputDir + "/" + evid + "/instrument"
  {
    EventIdOfDirectory(outDir, evid);
  }

  /** `for iid in all_net: data_process(...)`: one conversion request per
      comma-separated network id, in order. */
  method ConvertEvent(path: string, outputDir: string, netid: string) returns (requests: seq<NetPaths>)
    ensures |requests| == |Split(netid, ',')|
    ensures forall k :: 0 <= k < |requests| ==> requests[k] == NetworkPaths(path, outputDir, Split(netid, ',')[k])
  {
    var allNet := Split(netid, ',');
    requests := [];
    for i := 0 to |allNet|
      invariant |requests| == i
      invariant forall k :: 0 <= k < i ==> requests[k] == NetworkPaths(path, outputDir, allNet[k])
    {
      requests := requests + [NetworkPaths(path, outputDir, allNet[i])];
    }
  }

  // ---------------------------------------------------------------------------
  // The STATIONS table

  /** The SAC header values read from one converted file. */
  datatype SacStation = SacStation(stla: real, stlo: real, stel: real, kevnm: string, kstnm: string)

  /** One STATIONS row: network, station, latitude, longitude, elevation. */
  datatype StationRow = StationRow(net: string, stid: string, stla: real, stlo: real, stel: real)

  /** The row written for a station: an empty network name becomes
      "Unknown", anything else is kept. */
  function RowOf(s: SacStation): (row: StationRow)
    ensures row.net != "" && (s.kevnm != "" ==> row.net == s.kevnm)
    ensures row.stid == s.kstnm && row.stla == s.stla && row.stlo == s.stlo && row.stel == s.stel
  {
    var net := if s.kevnm == "" then "Unknown" else s.kevnm;
    StationRow(net, s.kstnm, s.stla, s.stlo, s.stel)
  }

  /** No earlier file carries the same station id. */
  predicate IsFirst(files: seq<SacStation>, i: int)
    requires 0 <= i < |files|
  {
    forall j :: 0 <= j < i ==> files[j].kstnm != files[i].kstnm
  }

  /** The indices below n of the files that are the first of their station
      id, in increasing order. */
  function FirstIndices(files: seq<SacStation>, n: nat): (idx: seq<nat>)
    requires n <= |files|
    ensures forall k :: 0 <= k < |idx| ==> idx[k] < n && IsFirst(files, idx[k])
    ensures forall a, b :: 0 <= a < b < |idx| ==> idx[a] < idx[b]
    ensures forall i :: 0 <= i < n && IsFirst(files, i) ==> i in idx
  {
    if n == 0 then []
    else FirstIndices(files, n - 1) + (if IsFirst(files, n - 1) then [n - 1] else [])
  }

  /** The reference table over the first n files: one row for each file
      that is the first of its station id, in file order. */
  function TableUpTo(files: seq<SacStation>, n: nat): seq<StationRow>
    requires n <= |files|
  {
    if n == 0 then []
    else TableUpTo(files, n - 1) + (if IsFirst(files, n - 1) then [RowOf(files[n - 1])] else [])
  }

  /** The rows are those of the files FirstIndices lists. */
  lemma {:induction false} TableRows(files: seq<SacStation>, n: nat)
    requires n <= |files|
    ensures RowsOf(files, TableUpTo(files, n), FirstIndices(files, n))
    decreases n
  {
    if n > 0 {
      TableRows(files, n - 1);
      var t, idx := TableUpTo(files, n - 1), FirstIndices(files, n - 1);
      if IsFirst(files, n - 1) {
        assert TableUpTo(files, n) == t + [RowOf(files[n - 1])];
        assert FirstIndices(files, n) == idx + [n - 1];
        RowsOfAppend(files, t, idx, n - 1);
      } else {
        assert TableUpTo(files, n) == t;
        assert FirstIndices(files, n) == idx;
      }
    }
  }

  /** RowsOf(files, t, idx): t holds the rows of the files at idx. */
  predicate RowsOf(files: seq<SacStation>, t: seq<StationRow>, idx: seq<nat>) {
    |t| == |idx| && forall k :: 0 <= k < |t| ==> idx[k] < |files| && t[k] == RowOf(files[idx[k]])
  }

  lemma RowsOfAppend(files: seq<SacStation>, t: seq<StationRow>, idx: seq<nat>, j: nat)
    requires RowsOf(files, t, idx) && j < |files|
    ensures RowsOf(files, t + [RowOf(files[j])], idx + [j])
  {
    var row := RowOf(files[j]);
    assert forall k :: 0 <= k < |t| ==> (t + [row])[k] == t[k] && (idx + [j])[k] == idx[k];
  }

  function StationTable(files: seq<SacStation>): seq<StationRow> {
    TableUpTo(files, |files|)
  }

  /** The loop of lines 65-84 over the sorted file list: a station id already
      in all_stid is skipped, otherwise it is appended and its row written. */
  method WriteStations(files: seq<SacStation>) returns (rows: seq<StationRow>)
    ensures rows == StationTable(files)
  {
    var allStid: seq<string> := [];
    rows := [];
    var i := 0;
    while i < |files|
      invariant 0 <= i <= |files|
      invariant rows == TableUpTo(files, i)
      invariant forall s :: s in allStid <==> s in IdSet(files, i)
    {
      var stid := files[i].kstnm;
      IdSetStep(files, i);
      if stid !in allStid {
        allStid := allStid + [stid];
        rows := rows + [RowOf(files[i])];
      }
      i := i + 1;
    }
  }

  /** The file at or before i that is the first of i's station id. */
  lemma {:induction false} FirstOccurrence(files: seq<SacStation>, i: int) returns (j: int)
    requires 0 <= i < |files|
    ensures 0 <= j <= i && IsFirst(files, j) && files[j].kstnm == files[i].kstnm
    decreases i
  {
    if IsFirst(files, i) {
      j := i;
    } else {
      var k :| 0 <= k < i && files[k].kstnm == files[i].kstnm;
      j := FirstOccurrence(files, k);
    }
  }

  /** At most one row per station id. */
  lemma StationIdsDistinct(files: seq<SacStation>)
    ensures var rows := StationTable(files);
      forall a, b :: 0 <= a < b < |rows| ==> rows[a].stid != rows[b].stid
  {
    TableRows(files, |files|);
    var idx := FirstIndices(files, |files|);
    forall a, b | 0 <= a < b < |idx|
      ensures files[idx[a]].kstnm != files[idx[b]].kstnm
    {
      assert IsFirst(files, idx[b]);
    }
  }

  /** Every station id met gets a row, and that row is the one of the first
      file carrying the id; later files with the same id are skipped. */
  lemma StationIdsCovered(files: seq<SacStation>, i: int)
    requires 0 <= i < |files|
    ensures exists k :: 0 <= k < |StationTable(files)| && StationTable(files)[k].stid == files[i].kstnm
    ensures forall k :: 0 <= k < |StationTable(files)| && StationTable(files)[k].stid == files[i].kstnm ==>
      exists j :: 0 <= j <= i && IsFirst(files, j) && StationTable(files)[k] == RowOf(files[j])
  {
    TableRows(files, |files|);
    var idx := FirstIndices(files, |files|);
    var rows := StationTable(files);
    var j := FirstOccurrence(files, i);
    var k :| 0 <= k < |idx| && idx[k] == j;
    assert rows[k].stid == files[i].kstnm;
    forall k' | 0 <= k' < |rows| && rows[k'].stid == files[i].kstnm
      ensures exists j' :: 0 <= j' <= i && IsFirst(files, j') && rows[k'] == RowOf(files[j'])
    {
      assert IsFirst(files, idx[k']);
      assert idx[k'] == j;
    }
  }

  /** The station ids of the first n files. */
  function IdSet(files: seq<SacStation>, n: nat): set<string>
    requires n <= |files|
  {
    set j | 0 <= j < n :: files[j].kstnm
  }

  /** A file is the first of its station id exactly when that id is new,
      and the next file adds its id to the set seen so far. */
  lemma IdSetStep(files: seq<SacStation>, i: nat)
    requires i < |files|
    ensures IsFirst(files, i) <==> files[i].kstnm !in IdSet(files, i)
    ensures IdSet(files, i + 1) == IdSet(files, i) + {files[i].kstnm}
  {
    if !IsFirst(files, i) {
      var j :| 0 <= j < i && files[j].kstnm == files[i].kstnm;
      assert files[j].kstnm in IdSet(files, i);
    }
  }

  lemma {:induction false} FirstIndicesCount(files: seq<SacStation>, n: nat)
    requires n <= |files|
    ensures |FirstIndices(files, n)| == |IdSet(files, n)|
    decreases n
  {
    if n > 0 {
      FirstIndicesCount(files, n - 1);
      IdSetStep(files, n - 1);
      if !IsFirst(files, n - 1) {
        assert IdSet(files, n) == IdSet(files, n - 1);
      }
    }
  }

  /** The table has exactly as many rows as there are distinct station
      ids. */
  lemma StationCount(files: seq<SacStation>)
    ensures |StationTable(files)| == |IdSet(files, |files|)|
  {
    FirstIndicesCount(files, |files|);
    TableRows(files, |files|);
  }
}
