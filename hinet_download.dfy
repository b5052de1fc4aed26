/** Continuous_Waveform_Hinet.py: which catalog lines become download
    requests, how the origin fields are cut out of a PDE or PDEW line, the
    event id, the JST start of the download window, the loop over network
    ids, the per-network file names, and the header line copied into
    CMTSOLUTION. The remote service is a parameter: each attempt's success
    is whatever the caller's function says. */
module HinetDownload {
  import opened Text
  import opened Calendar

  /** TWL = 2.5 minutes of data before the event, in seconds. */
  const TwlSeconds: int := 150
  /** JST is UTC + 9 hours. */
  const JstOffsetSeconds: int := 9 * 3600
  /** duration = 8 minutes of data per request. */
  const DurationMinutes: int := 8

  // ---------------------------------------------------------------------------
  // Line classification

  datatype LineForm = NotPde | Pde | Pdew | OtherPde

  lemma {:induction false} ContainsShorter(s: string, t: string, u: string)
    requires Contains(s, t + u)
    ensures Contains(s, t)
    decreases |s|
  {
    if t + u <= s {
      assert t <= s by {
        assert forall i :: 0 <= i < |t| ==> (t + u)[i] == t[i];
      }
    } else {
      ContainsShorter(s[1..], t, u);
    }
  }

  lemma TagsContainPde(line: string)
    ensures Contains(line, "PDE ") ==> Contains(line, "PDE")
    ensures Contains(line, "PDEW") ==> Contains(line, "PDE")
  {
    if Contains(line, "PDE ") {
      assert "PDE " == "PDE" + " ";
      ContainsShorter(line, "PDE", " ");
    }
    if Contains(line, "PDEW") {
      assert "PDEW" == "PDE" + "W";
      ContainsShorter(line, "PDE", "W");
    }
  }

  /** A line without "PDE" is skipped; "PDE " wins over "PDEW", so a line
      holding both is read in the PDE form; a line with "PDE" but neither
      form is the stale-variable case. */
  function Classify(line: string): (f: LineForm)
    ensures f == NotPde <==> !Contains(line, "PDE")
    ensures f == Pde <==> Contains(line, "PDE ")
    ensures f == Pdew <==> Contains(line, "PDEW") && !Contains(line, "PDE ")
    ensures f == OtherPde <==> Contains(line, "PDE") && !Contains(line, "PDE ") && !Contains(line, "PDEW")
  {
    TagsContainPde(line);
    if !Contains(line, "PDE") then NotPde
    else if Contains(line, "PDE ") then Pde
    else if Contains(line, "PDEW") then Pdew
    else OtherPde
  }

  // ---------------------------------------------------------------------------
  // Origin fields

  datatype OriginText = OriginText(year: string, month: string, day: string, hour: string, minute: string, second: string)

  /** PDE: year..second are whitespace fields 1..6. PDEW: month..second are
      fields 1..5 and the year is characters 5..8 of the raw line. The
      seconds are cut at their first '.'. Too few fields make the tuple
      unpacking raise (None). */
  function ExtractOrigin(line: string, form: LineForm): (r: Option<OriginText>)
    requires form == Pde || form == Pdew
    ensures r.Some? <==> |Fields(line)| >= (if form == Pde then 7 else 6)
    ensures r.Some? && form == Pde ==>
      var f := Fields(line);
      r.value == OriginText(f[1], f[2], f[3], f[4], f[5], r.value.second)
      && r.value.second <= f[6] && '.' !in r.value.second
      && (r.value.second == f[6] || f[6][|r.value.second|] == '.')
    ensures r.Some? && form == Pdew ==>
      var f := Fields(line);
      r.value == OriginText(Slice(line, 5, 9), f[1], f[2], f[3], f[4], r.value.second)
      && r.value.second <= f[5] && '.' !in r.value.second
      && (r.value.second == f[5] || f[5][|r.value.second|] == '.')
  {
    var f := Fields(line);
    if form == Pde then
      if |f| < 7 then None
      else Some(OriginText(f[1], f[2], f[3], f[4], f[5], FirstPiece(f[6], '.')))
    else
      if |f| < 6 then None
      else Some(OriginText(Slice(line, 5, 9), f[1], f[2], f[3], f[4], FirstPiece(f[5], '.')))
  }

  // ---------------------------------------------------------------------------
  // strptime(origin, '%Y-%m-%d %H:%M:%S') and the start time

  datatype DateTime = DateTime(year: int, month: int, day: int, hour: int, minute: int, second: int)

  predicate ValidDateTime(t: DateTime) {
    1 <= t.year <= 9999 && ValidDate(t.year, t.month, t.day)
    && 0 <= t.hour <= 23 && 0 <= t.minute <= 59 && 0 <= t.second <= 59
  }

  /** One numeric field of the format: between minWidth and maxWidth ASCII
      digits with a value in lo..hi. */
  function FieldValue(s: string, minWidth: nat, maxWidth: nat, lo: int, hi: int): (r: Option<int>)
    ensures r.Some? ==> lo <= r.value <= hi
  {
    if minWidth <= |s| <= maxWidth && AllDigits(s) && lo <= DigitsValue(s) <= hi
    then Some(DigitsValue(s)) else None
  }

  /** The date and time the joined origin string denotes, or None where
      strptime or the datetime constructor raises: %Y takes exactly four
      digits, the other fields one or two, and the values must form a real
      date and time (no second 60). */
  function ParseOrigin(o: OriginText): (r: Option<DateTime>)
    ensures r.Some? ==> ValidDateTime(r.value)
  {
    var y := FieldValue(o.year, 4, 4, 1, 9999);
    var mo := FieldValue(o.month, 1, 2, 1, 12);
    var d := FieldValue(o.day, 1, 2, 1, 31);
    var h := FieldValue(o.hour, 1, 2, 0, 23);
    var mi := FieldValue(o.minute, 1, 2, 0, 59);
    var s := FieldValue(o.second, 1, 2, 0, 59);
    if y.Some? && mo.Some? && d.Some? && h.Some? && mi.Some? && s.Some?
       && d.value <= MonthLength(y.value, mo.value)
    then Some(DateTime(y.value, mo.value, d.value, h.value, mi.value, s.value))
    else None
  }

  /** Seconds since 0001-01-01 00:00:00. */
  function EpochSeconds(t: DateTime): int
    requires 1 <= t.month <= 12
  {
    (((DayNumber(t.year, DayOfYear(t.year, t.month, t.day)) - 1) * 24 + t.hour) * 60 + t.minute) * 60 + t.second
  }

  /** The last second datetime can hold, 9999-12-31 23:59:59. */
  const MaxEpochSeconds: int := 315537897599

  /** The constant is the epoch second of 9999-12-31 23:59:59. */
  lemma MaxEpochSecondsIsLastSecond()
    ensures ValidDateTime(DateTime(9999, 12, 31, 23, 59, 59))
    ensures MaxEpochSeconds == EpochSeconds(DateTime(9999, 12, 31, 23, 59, 59))
  {
    assert DaysBeforeYear(9999) == 3651694;
    assert DayOfYear(9999, 12, 31) == 365 by {
      MonthsFillYear(9999);
    }
  }

  /** The download start: the origin read as JST (UTC + 9 h) minus TWL.
      Adding 9 hours past 9999-12-31 raises OverflowError (None). */
  function DownloadStart(t: DateTime): (r: Option<int>)
    requires ValidDateTime(t)
    ensures r.Some? <==> EpochSeconds(t) + JstOffsetSeconds <= MaxEpochSeconds
    ensures r.Some? ==> r.value + TwlSeconds == EpochSeconds(t) + JstOffsetSeconds
    ensures r.Some? ==> r.value < EpochSeconds(t) + JstOffsetSeconds < r.value + DurationMinutes * 60
  {
    var jst := EpochSeconds(t) + JstOffsetSeconds;
    if jst > MaxEpochSeconds then None else Some(jst - TwlSeconds)
  }

  // ---------------------------------------------------------------------------
  // Event id

  /** '%s%s%s%s%s%s' of the zfill-padded fields: year to width 4, the others
      to width 2. */
  function EventId(o: OriginText): string {
    ZFill(o.year, 4) + ZFill(o.month, 2) + ZFill(o.day, 2) + ZFill(o.hour, 2) + ZFill(o.minute, 2) + ZFill(o.second, 2)
  }

  /** Fields within their widths give a 14-character id, each field in its
      own columns. */
  lemma EventIdLayout(o: OriginText)
    requires |o.year| <= 4 && |o.month| <= 2 && |o.day| <= 2 && |o.hour| <= 2 && |o.minute| <= 2 && |o.second| <= 2
    ensures var e := EventId(o);
      |e| == 14 && e[..4] == ZFill(o.year, 4) && e[4..6] == ZFill(o.month, 2) && e[6..8] == ZFill(o.day, 2)
      && e[8..10] == ZFill(o.hour, 2) && e[10..12] == ZFill(o.minute, 2) && e[12..] == ZFill(o.second, 2)
  {
  }

  /** Reads an id back: the six decimal groups. */
  function DecodeEventId(e: string): DateTime
    requires |e| == 14 && AllDigits(e)
  {
    DateTime(DigitsValue(e[..4]), DigitsValue(e[4..6]), DigitsValue(e[6..8]),
             DigitsValue(e[8..10]), DigitsValue(e[10..12]), DigitsValue(e[12..]))
  }

  /** The id of an origin that parses is fourteen digits that decode to that
      very date and time: distinct origins get distinct ids. */
  lemma EventIdRoundTrip(o: OriginText, t: DateTime)
    requires ParseOrigin(o) == Some(t)
    ensures |EventId(o)| == 14 && AllDigits(EventId(o))
    ensures DecodeEventId(EventId(o)) == t
  {
    ZFillDigits(o.year, 4);
    ZFillDigits(o.month, 2);
    ZFillDigits(o.day, 2);
    ZFillDigits(o.hour, 2);
    ZFillDigits(o.minute, 2);
    ZFillDigits(o.second, 2);
    EventIdLayout(o);
    var e := EventId(o);
    assert AllDigits(e) by {
      forall i | 0 <= i < 14
        ensures IsDigit(e[i])
      {
        if i < 4 { assert e[i] == e[..4][i]; }
        else if i < 6 { assert e[i] == e[4..6][i - 4]; }
        else if i < 8 { assert e[i] == e[6..8][i - 6]; }
        else if i < 10 { assert e[i] == e[8..10][i - 8]; }
        else if i < 12 { assert e[i] == e[10..12][i - 10]; }
        else { assert e[i] == e[12..][i - 12]; }
      }
    }
  }

  // ---------------------------------------------------------------------------
  // The catalog loop

  datatype Outcome = Download(evid: string, start: int) | Unmodelled | Fails

  /** What a line whose origin fields were cut out leads to, given whether
      its magnitude passes the filter. */
  function OriginOutcome(o: OriginText, magnitudeAccepted: bool): Outcome {
    if !magnitudeAccepted then Unmodelled
    else
      match ParseOrigin(o)
      case None => Fails
      case Some(t) =>
        match DownloadStart(t)
        case None => Fails
        case Some(st) => Download(EventId(o), st)
  }

  /** minmag and maxmag: only 0 < mag < 10 is downloaded. */
  const MinMag: real := 0.0
  const MaxMag: real := 10.0

  /** max(float(test[10]), float(test[11])) for PDE and
      max(float(test[9]), float(test[10])) for PDEW; None where a field is
      missing or `parseFloat` (Python's float) rejects it. */
  function Magnitude(f: seq<string>, form: LineForm, parseFloat: string -> Option<real>): (r: Option<real>)
    requires form == Pde || form == Pdew
    ensures var i := if form == Pde then 10 else 9;
      r.Some? <==> |f| > i + 1 && parseFloat(f[i]).Some? && parseFloat(f[i + 1]).Some?
    ensures var i := if form == Pde then 10 else 9;
      r.Some? ==> (r.value >= parseFloat(f[i]).value && r.value >= parseFloat(f[i + 1]).value
                   && (r.value == parseFloat(f[i]).value || r.value == parseFloat(f[i + 1]).value))
  {
    var i := if form == Pde then 10 else 9;
    if |f| <= i + 1 then None
    else
      match (parseFloat(f[i]), parseFloat(f[i + 1]))
      case (Some(a), Some(b)) => Some(if b > a then b else a)
      case _ => None
  }

  /** What a line of the PDE or PDEW form leads to. */
  function FormOutcome(line: string, form: LineForm, parseFloat: string -> Option<real>): Outcome
    requires form == Pde || form == Pdew
  {
    match ExtractOrigin(line, form)
    case None => Fails
    case Some(o) =>
      match Magnitude(Fields(line), form, parseFloat)
      case None => Fails
      case Some(mag) => OriginOutcome(o, MinMag < mag < MaxMag)
  }

  /** What one line containing "PDE" leads to: a download request, the
      stale-variable path (Unmodelled), or an exception that ends the
      script (Fails). */
  function LineOutcome(line: string, parseFloat: string -> Option<real>): Outcome
    requires Contains(line, "PDE")
  {
    var form := Classify(line);
    if form == OtherPde then Unmodelled else FormOutcome(line, form, parseFloat)
  }

  /** A download carries the id and the start time of an origin that
      parsed, and the id decodes back to that origin. */
  lemma OriginDownload(o: OriginText, accepted: bool)
    requires OriginOutcome(o, accepted).Download?
    ensures accepted && ParseOrigin(o).Some?
    ensures var e := OriginOutcome(o, accepted).evid;
      e == EventId(o) && |e| == 14 && AllDigits(e) && DecodeEventId(e) == ParseOrigin(o).value
    ensures Some(OriginOutcome(o, accepted).start) == DownloadStart(ParseOrigin(o).value)
  {
    EventIdRoundTrip(o, ParseOrigin(o).value);
  }

  /** Only PDE and PDEW lines with their magnitude fields and a magnitude
      strictly between MinMag and MaxMag lead to a download. */
  lemma DownloadOutcome(line: string, parseFloat: string -> Option<real>)
    requires Contains(line, "PDE") && LineOutcome(line, parseFloat).Download?
    ensures Classify(line) == Pde || Classify(line) == Pdew
    ensures ExtractOrigin(line, Classify(line)).Some?
    ensures var mag := Magnitude(Fields(line), Classify(line), parseFloat);
      mag.Some? && MinMag < mag.value < MaxMag
      && LineOutcome(line, parseFloat) == OriginOutcome(ExtractOrigin(line, Classify(line)).value, true)
  {
  }

  datatype Item = Item(index: int, outcome: Outcome)

  predicate Selected(lines: seq<string>, startline: int, i: int) {
    0 <= i < |lines| && startline <= i && Contains(lines[i], "PDE")
  }

  /** The reference order of work: the selected line indices below n, in
      increasing order. */
  function SelectedBelow(lines: seq<string>, startline: int, n: nat): seq<int>
    requires n <= |lines|
  {
    if n == 0 then []
    else SelectedBelow(lines, startline, n - 1) + (if Selected(lines, startline, n - 1) then [n - 1] else [])
  }

  /** SelectedBelow lists every selected index below n, and nothing else,
      in increasing order. */
  lemma {:induction false} SelectedBelowFacts(lines: seq<string>, startline: int, n: nat)
    requires n <= |lines|
    ensures forall k :: 0 <= k < |SelectedBelow(lines, startline, n)| ==>
      Selected(lines, startline, SelectedBelow(lines, startline, n)[k]) && SelectedBelow(lines, startline, n)[k] < n
    ensures forall a, b :: 0 <= a < b < |SelectedBelow(lines, startline, n)| ==>
      SelectedBelow(lines, startline, n)[a] < SelectedBelow(lines, startline, n)[b]
    ensures forall i :: Selected(lines, startline, i) && i < n ==> i in SelectedBelow(lines, startline, n)
    decreases n
  {
    if n > 0 {
      SelectedBelowFacts(lines, startline, n - 1);
      var p := SelectedBelow(lines, startline, n - 1);
      var r := SelectedBelow(lines, startline, n);
      if Selected(lines, startline, n - 1) {
        assert r == p + [n - 1];
        assert forall k :: 0 <= k < |p| ==> r[k] == p[k] && p[k] < n - 1;
        assert r[|p|] == n - 1;
        forall a, b | 0 <= a < b < |r|
          ensures r[a] < r[b]
        {
          if b < |p| {
            assert r[a] == p[a] && r[b] == p[b];
          }
        }
      } else {
        assert r == p;
      }
    }
  }

  predicate Failed(items: seq<Item>) {
    |items| > 0 && items[|items| - 1].outcome == Fails
  }

  /** The reference scan of the first n lines: a selected line is handled
      unless an earlier one has failed. */
  function Scan(lines: seq<string>, startline: int, parseFloat: string -> Option<real>, n: nat): seq<Item>
    requires n <= |lines|
  {
    if n == 0 then []
    else
      var prev := Scan(lines, startline, parseFloat, n - 1);
      if Failed(prev) || !Selected(lines, startline, n - 1) then prev
      else prev + [Item(n - 1, LineOutcome(lines[n - 1], parseFloat))]
  }

  /** The number of lines the scan looks at: up to and including the failing
      line if one failed, all n otherwise. */
  function Examined(items: seq<Item>, n: int): int {
    if Failed(items) then items[|items| - 1].index + 1 else n
  }

  /** Every item the scan records is a selected line with its outcome. */
  lemma {:induction false} ScanHandles(lines: seq<string>, startline: int, parseFloat: string -> Option<real>, n: nat)
    requires n <= |lines|
    ensures forall it :: it in Scan(lines, startline, parseFloat, n) ==>
      Selected(lines, startline, it.index) && it.outcome == LineOutcome(lines[it.index], parseFloat)
    decreases n
  {
    if n > 0 {
      ScanHandles(lines, startline, parseFloat, n - 1);
      var prev := Scan(lines, startline, parseFloat, n - 1);
      var items := Scan(lines, startline, parseFloat, n);
      if !Failed(prev) && Selected(lines, startline, n - 1) {
        assert items == prev + [Item(n - 1, LineOutcome(lines[n - 1], parseFloat))];
      } else {
        assert items == prev;
      }
    }
  }

  /** Only the last item of the scan can have failed. */
  lemma {:induction false} ScanFailsLast(lines: seq<string>, startline: int, parseFloat: string -> Option<real>, n: nat)
    requires n <= |lines|
    ensures forall k :: 0 <= k < |Scan(lines, startline, parseFloat, n)| - 1 ==>
      Scan(lines, startline, parseFloat, n)[k].outcome != Fails
    decreases n
  {
    if n > 0 {
      ScanFailsLast(lines, startline, parseFloat, n - 1);
      var prev := Scan(lines, startline, parseFloat, n - 1);
      var items := Scan(lines, startline, parseFloat, n);
      if !Failed(prev) && Selected(lines, startline, n - 1) {
        var it := Item(n - 1, LineOutcome(lines[n - 1], parseFloat));
        assert items == prev + [it];
        NoEarlyFailureAppend(prev, it);
      } else {
        assert items == prev;
      }
    }
  }

  lemma NoEarlyFailureAppend(prev: seq<Item>, it: Item)
    requires forall k :: 0 <= k < |prev| - 1 ==> prev[k].outcome != Fails
    requires !Failed(prev)
    ensures forall k :: 0 <= k < |prev + [it]| - 1 ==> (prev + [it])[k].outcome != Fails
  {
    assert forall k :: 0 <= k < |prev| ==> (prev + [it])[k] == prev[k];
  }

  /** The items are at the given line indices, in that order. */
  predicate IndicesAre(items: seq<Item>, sel: seq<int>) {
    |items| == |sel| && forall k :: 0 <= k < |items| ==> items[k].index == sel[k]
  }

  lemma IndicesAppend(items: seq<Item>, sel: seq<int>, it: Item)
    requires IndicesAre(items, sel)
    ensures IndicesAre(items + [it], sel + [it.index])
  {
    assert forall k :: 0 <= k < |items| ==> (items + [it])[k] == items[k] && (sel + [it.index])[k] == sel[k];
  }

  /** The scan handles exactly the selected lines among those it looks at,
      in increasing order. */
  lemma {:induction false} ScanOrder(lines: seq<string>, startline: int, parseFloat: string -> Option<real>, n: nat)
    requires n <= |lines|
    ensures 0 <= Examined(Scan(lines, startline, parseFloat, n), n) <= n
    ensures IndicesAre(Scan(lines, startline, parseFloat, n),
                       SelectedBelow(lines, startline, Examined(Scan(lines, startline, parseFloat, n), n)))
    decreases n
  {
    if n > 0 {
      ScanOrder(lines, startline, parseFloat, n - 1);
      var prev := Scan(lines, startline, parseFloat, n - 1);
      var items := Scan(lines, startline, parseFloat, n);
      if Failed(prev) {
        assert items == prev;
      } else if Selected(lines, startline, n - 1) {
        var it := Item(n - 1, LineOutcome(lines[n - 1], parseFloat));
        assert items == prev + [it];
        assert Examined(items, n) == n by {
          if Failed(items) {
            assert items[|items| - 1] == it;
          }
        }
        assert SelectedBelow(lines, startline, n) == SelectedBelow(lines, startline, n - 1) + [n - 1];
        IndicesAppend(prev, SelectedBelow(lines, startline, n - 1), it);
      } else {
        assert items == prev;
        assert SelectedBelow(lines, startline, n) == SelectedBelow(lines, startline, n - 1);
      }
    }
  }

  /** Once a line has failed, later lines change nothing. */
  lemma {:induction false} ScanStops(lines: seq<string>, startline: int, parseFloat: string -> Option<real>, i: nat, n: nat)
    requires i <= n <= |lines| && Failed(Scan(lines, startline, parseFloat, i))
    ensures Scan(lines, startline, parseFloat, n) == Scan(lines, startline, parseFloat, i)
    decreases n - i
  {
    if i < n {
      ScanStops(lines, startline, parseFloat, i, n - 1);
    }
  }

  /** `for i, cmt in enumerate(cmtlist)`: lines before startline and lines
      without "PDE" are skipped; every other line is handled, in order, until
      one fails. */
  method ScanCatalog(lines: seq<string>, startline: int, parseFloat: string -> Option<real>)
    returns (items: seq<Item>)
    ensures items == Scan(lines, startline, parseFloat, |lines|)
  {
    items := [];
    var i := 0;
    var failed := false;
    while i < |lines| && !failed
      invariant 0 <= i <= |lines|
      invariant items == Scan(lines, startline, parseFloat, i)
      invariant failed == Failed(items)
    {
      if startline <= i && Contains(lines[i], "PDE") {
        var outcome := LineOutcome(lines[i], parseFloat);
        items := items + [Item(i, outcome)];
        failed := outcome == Fails;
      }
      i := i + 1;
    }
    if failed {
      ScanStops(lines, startline, parseFloat, i, |lines|);
    }
  }

  // ---------------------------------------------------------------------------
  // Downloading one event

  datatype NetFiles = NetFiles(data: string, ctable: string, outdir: string)

  /** download_waveform's names: data '<evid>_<netid>.cnt', channel table
      '<netid>.ch', directory '<out_dir>/<evid>'. */
  function NetworkFiles(evid: string, netid: string, outDir: string): NetFiles {
    NetFiles(evid + "_" + netid + ".cnt", netid + ".ch", outDir + "/" + evid)
  }

  /** `for iid in netid.split(','): temp = download_waveform(...);
      data_downloaded = data_downloaded or temp`: every network is tried,
      since the call comes before the `or`, and the event counts as
      downloaded when at least one attempt succeeded. `fetch` is the remote
      service's answer per network id. */
  method DownloadNetworks(evid: string, netid: string, outDir: string, fetch: string -> bool)
    returns (downloaded: bool, requested: seq<NetFiles>)
    ensures |requested| == |Split(netid, ',')|
    ensures forall k :: 0 <= k < |requested| ==>
      requested[k] == NetworkFiles(evid, Split(netid, ',')[k], outDir)
    ensures downloaded <==> exists k :: 0 <= k < |Split(netid, ',')| && fetch(Split(netid, ',')[k])
  {
    var allNet := Split(netid, ',');
    downloaded := false;
    requested := [];
    for i := 0 to |allNet|
      invariant |requested| == i
      invariant forall k :: 0 <= k < i ==> requested[k] == NetworkFiles(evid, allNet[k], outDir)
      invariant downloaded <==> exists k :: 0 <= k < i && fetch(allNet[k])
    {
      var iid := allNet[i];
      requested := requested + [NetworkFiles(evid, iid, outDir)];
      var temp := fetch(iid);
      downloaded := downloaded || temp;
    }
  }

  // ---------------------------------------------------------------------------
  // The header line written into CMTSOLUTION

  /** cmtlist[i][1:5] + ' ' + cmtlist[i][5:]: the first character is dropped
      and a space is put after the four-character tag, so the length never
      changes (an empty line becomes one space). */
  function HeaderLine(line: string): (r: string)
    ensures |r| == if |line| == 0 then 1 else |line|
    ensures |line| >= 5 ==> r[..4] == line[1..5] && r[4] == ' ' && r[5..] == line[5..]
  {
    Slice(line, 1, 5) + " " + Slice(line, 5, |line|)
  }

  /** A line starting with a blank keeps its fields when that blank goes. */
  lemma FieldsDropBlank(line: string)
    requires |line| > 0 && IsSpace(line[0])
    ensures Fields(line) == Fields(line[1..])
  {
    FieldsOfSpace(line[0], line[1..]);
    assert line == [line[0]] + line[1..];
  }

  /** The rewrite lets Sac_Time_Revise.py read the origin as whitespace
      fields 1..6 in both forms. For a PDE line ('<blank>PDE <year> ...')
      the fields are unchanged. */
  lemma HeaderLineFieldsPde(line: string)
    requires |line| >= 5 && IsSpace(line[0]) && line[1..5] == "PDE "
    ensures Fields(HeaderLine(line)) == Fields(line)
  {
    PdeHeaderText(line);
    var y := line[4..];
    FieldsOfWord("PDE", [' '] + y);
    FieldsOfSpace(' ', y);
    FieldsOfWord("PDE", y);
    FieldsDropBlank(line);
  }

  lemma PdeHeaderText(line: string)
    requires |line| >= 5 && line[1..5] == "PDE "
    ensures HeaderLine(line) == "PDE" + ([' '] + line[4..])
    ensures line[1..] == "PDE" + line[4..] && line[4] == ' '
  {
    assert line[4] == line[1..5][3];
    assert HeaderLine(line) == line[1..5] + " " + line[5..];
    assert line[4..] == [' '] + line[5..];
    assert line[1..5] == "PDE" + [' '];
    assert line[1..] == line[1..5] + line[5..];
  }

  /** For a PDEW line ('<blank>PDEW<year> ...'), where the year is glued to
      the tag, the tag and the year become fields 0 and 1 and the original
      fields after the first follow. */
  lemma HeaderLineFieldsPdew(line: string)
    requires |line| >= 10 && IsSpace(line[0]) && line[1..5] == "PDEW"
    requires NoSpace(line[5..9]) && IsSpace(line[9])
    ensures |Fields(line)| > 0
    ensures Fields(HeaderLine(line)) == ["PDEW", Slice(line, 5, 9)] + Fields(line)[1..]
  {
    PdewHeaderText(line);
    var x := line[9..];
    TagYearFields(line[5..9], x);
    FieldsDropBlank(line);
    FieldsOfWord(line[1..9], x);
    assert Fields(line)[1..] == Fields(x);
  }

  lemma TagYearFields(year: string, x: string)
    requires |year| > 0 && NoSpace(year) && |x| > 0 && IsSpace(x[0])
    ensures Fields("PDEW" + ([' '] + (year + x))) == ["PDEW", year] + Fields(x)
  {
    FieldsOfWord("PDEW", [' '] + (year + x));
    FieldsOfSpace(' ', year + x);
    FieldsOfWord(year, x);
  }

  lemma PdewHeaderText(line: string)
    requires |line| >= 10 && line[1..5] == "PDEW" && NoSpace(line[5..9])
    ensures HeaderLine(line) == "PDEW" + ([' '] + (line[5..9] + line[9..]))
    ensures line[1..] == line[1..9] + line[9..] && NoSpace(line[1..9])
  {
    assert HeaderLine(line) == line[1..5] + " " + line[5..];
    assert line[5..] == line[5..9] + line[9..];
    assert line[1..9] == line[1..5] + line[5..9];
    assert NoSpace("PDEW");
    NoSpaceConcat(line[1..5], line[5..9]);
  }
}
