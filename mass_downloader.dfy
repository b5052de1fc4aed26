/** mass-downloader.py: the event file name derived from the catalog's
    ISO-8601 time, the miniSEED storage path, the request window around the
    origin, and the loop over catalog rows. The FDSN mass downloader and
    obspy's time parsing are outside the model; the parsed origin time is a
    parameter. */
module MassDownloader {
  import opened Text

  // ---------------------------------------------------------------------------
  // event_fname

  /** "".join(ts.split("T")[0].split("-")) followed by the second piece of
      ts.split("T") with every 'Z', '.' and ':' removed the same way; None
      where there is no 'T' and indexing piece 1 raises. */
  function EventFileName(ts: string): (r: Option<string>)
    ensures r.None? <==> 'T' !in ts
  {
    SplitMany(ts, 'T');
    var p := Split(ts, 'T');
    if |p| < 2 then None
    else Some(Concat(Split(p[0], '-')) + Concat(Split(Concat(Split(Concat(Split(p[1], 'Z')), '.')), ':')))
  }

  /** The name is the date part without '-' and the time part without 'Z',
      '.' and ':'. */
  lemma EventFileNameDropsSeparators(ts: string)
    requires 'T' in ts
    ensures |Split(ts, 'T')| > 1
    ensures EventFileName(ts) ==
      Some(RemoveAll(FirstPiece(ts, 'T'), '-') + RemoveAll(RemoveAll(RemoveAll(Split(ts, 'T')[1], 'Z'), '.'), ':'))
  {
    var p := Split(ts, 'T');
    SplitMany(ts, 'T');
    ConcatSplit(p[0], '-');
    ConcatSplit(p[1], 'Z');
    ConcatSplit(RemoveAll(p[1], 'Z'), '.');
    ConcatSplit(RemoveAll(RemoveAll(p[1], 'Z'), '.'), ':');
  }

  /** For ts = d + "T" + t + rest, where rest is empty or starts a further
      'T' piece, the name is made of d and t alone. */
  lemma EventFileNameParts(d: string, t: string, rest: string)
    requires 'T' !in d && 'T' !in t && (rest == "" || rest[0] == 'T')
    ensures EventFileName(d + "T" + t + rest) == Some(RemoveAll(d, '-') + RemoveAll(RemoveAll(RemoveAll(t, 'Z'), '.'), ':'))
  {
    var ts := d + "T" + t + rest;
    assert ts == d + ['T'] + (t + rest);
    FirstPieceBefore(d, 'T', t + rest);
    if rest == "" {
      assert t + rest == t;
      SplitNone(t, 'T');
    } else {
      assert t + rest == t + ['T'] + rest[1..];
      FirstPieceBefore(t, 'T', rest[1..]);
    }
    EventFileNameDropsSeparators(ts);
  }

  /** The canonical 'YYYY-MM-DDThh:mm:ss[.f]Z' shape. */
  function IsoTimestamp(y: string, mo: string, d: string, h: string, mi: string, s: string, frac: string): string {
    y + "-" + mo + "-" + d + "T" + h + ":" + mi + ":" + s + (if frac == "" then "" else "." + frac) + "Z"
  }

  /** Digit strings hold none of the timestamp's separators. */
  lemma DigitsLackSeparators(x: string)
    requires AllDigits(x)
    ensures 'T' !in x && '-' !in x && 'Z' !in x && '.' !in x && ':' !in x
  {
  }

  lemma RemoveDate(y: string, mo: string, d: string)
    requires '-' !in y && '-' !in mo && '-' !in d
    ensures RemoveAll(y + "-" + mo + "-" + d, '-') == y + mo + d
  {
    assert y + "-" + mo + "-" + d == y + ['-'] + (mo + ['-'] + d);
    RemoveSeparated(y, '-', mo + ['-'] + d);
    RemoveSeparated(mo, '-', d);
    RemoveAbsent(d, '-');
  }

  lemma RemoveLast(a: string, c: char)
    requires c !in a
    ensures RemoveAll(a + [c], c) == a
  {
    RemoveAppend(a, [c], c);
    RemoveAbsent(a, c);
  }

  lemma RemoveColons(h: string, mi: string, rest: string)
    requires ':' !in h && ':' !in mi && ':' !in rest
    ensures RemoveAll(h + ":" + mi + ":" + rest, ':') == h + mi + rest
  {
    assert h + ":" + mi + ":" + rest == h + [':'] + (mi + [':'] + rest);
    RemoveSeparated(h, ':', mi + [':'] + rest);
    RemoveSeparated(mi, ':', rest);
    RemoveAbsent(rest, ':');
  }

  /** The time part 'hh:mm:ss[.f]Z' loses its 'Z', '.' and ':'. */
  lemma RemoveTime(h: string, mi: string, s: string, frac: string)
    requires 'Z' !in h && 'Z' !in mi && 'Z' !in s && 'Z' !in frac
    requires '.' !in h && '.' !in mi && '.' !in s && '.' !in frac
    requires ':' !in h && ':' !in mi && ':' !in s && ':' !in frac
    ensures RemoveAll(RemoveAll(RemoveAll(h + ":" + mi + ":" + s + (if frac == "" then "" else "." + frac) + "Z", 'Z'), '.'), ':')
      == h + mi + (s + frac)
  {
    var hms := h + ":" + mi + ":" + s;
    var fracPart := if frac == "" then "" else "." + frac;
    assert h + ":" + mi + ":" + s + fracPart + "Z" == hms + fracPart + "Z";
    assert RemoveAll(RemoveAll(hms + fracPart + "Z", 'Z'), '.') == hms + frac by {
      assert 'Z' !in hms && '.' !in hms;
      assert 'Z' !in fracPart;
      RemoveTimeParts(hms, fracPart, frac);
    }
    assert RemoveAll(hms + frac, ':') == h + mi + (s + frac) by {
      assert hms + frac == h + ":" + mi + ":" + (s + frac);
      RemoveColons(h, mi, s + frac);
    }
  }

  lemma RemoveTimeParts(hms: string, fracPart: string, frac: string)
    requires 'Z' !in hms && 'Z' !in fracPart && '.' !in hms && '.' !in frac
    requires fracPart == "" ==> frac == ""
    requires fracPart != "" ==> fracPart == "." + frac
    ensures RemoveAll(RemoveAll(hms + fracPart + "Z", 'Z'), '.') == hms + frac
  {
    assert hms + fracPart + "Z" == (hms + fracPart) + ['Z'];
    RemoveLast(hms + fracPart, 'Z');
    if fracPart == "" {
      assert hms + fracPart == hms;
      RemoveAbsent(hms, '.');
    } else {
      assert hms + fracPart == hms + ['.'] + frac;
      RemoveSeparated(hms, '.', frac);
      RemoveAbsent(frac, '.');
    }
  }

  /** A canonical timestamp gives its date digits followed by its time
      digits, fraction included, with no separators. */
  lemma EventFileNameOfIso(y: string, mo: string, d: string, h: string, mi: string, s: string, frac: string)
    requires AllDigits(y) && AllDigits(mo) && AllDigits(d) && AllDigits(h) && AllDigits(mi) && AllDigits(s) && AllDigits(frac)
    ensures EventFileName(IsoTimestamp(y, mo, d, h, mi, s, frac)) == Some(y + mo + d + h + mi + s + frac)
  {
    var date := y + "-" + mo + "-" + d;
    var time := h + ":" + mi + ":" + s + (if frac == "" then "" else "." + frac) + "Z";
    assert EventFileName(IsoTimestamp(y, mo, d, h, mi, s, frac))
        == Some(RemoveAll(date, '-') + RemoveAll(RemoveAll(RemoveAll(time, 'Z'), '.'), ':')) by {
      DigitsLackSeparators(y); DigitsLackSeparators(mo); DigitsLackSeparators(d);
      DigitsLackSeparators(h); DigitsLackSeparators(mi); DigitsLackSeparators(s); DigitsLackSeparators(frac);
      assert IsoTimestamp(y, mo, d, h, mi, s, frac) == date + "T" + time + "";
      EventFileNameParts(date, time, "");
    }
    assert RemoveAll(date, '-') == y + mo + d by {
      DigitsLackSeparators(y); DigitsLackSeparators(mo); DigitsLackSeparators(d);
      RemoveDate(y, mo, d);
    }
    assert RemoveAll(RemoveAll(RemoveAll(time, 'Z'), '.'), ':') == h + mi + (s + frac) by {
      DigitsLackSeparators(h); DigitsLackSeparators(mi); DigitsLackSeparators(s); DigitsLackSeparators(frac);
      RemoveTime(h, mi, s, frac);
    }
    assert y + mo + d + (h + mi + (s + frac)) == y + mo + d + h + mi + s + frac;
  }

  // ---------------------------------------------------------------------------
  // get_mseed_storage

  /** posixpath.join(a, b): an absolute b replaces a; otherwise a '/' is put
      between them unless a is empty or already ends with one. */
  function PathJoin(a: string, b: string): (r: string)
    ensures |r| >= |b| && r[|r| - |b|..] == b
    ensures (|b| == 0 || b[0] != '/') ==> a <= r
  {
    if |b| > 0 && b[0] == '/' then b
    else if |a| == 0 || a[|a| - 1] == '/' then a + b
    else a + "/" + b
  }

  /** "{}.{}.{}.{}.mseed".format(network, station, location, channel). */
  function MseedName(net: string, sta: string, loc: string, chan: string): string {
    net + "." + sta + "." + loc + "." + chan + ".mseed"
  }

  function MseedStorage(eventFname: string, net: string, sta: string, loc: string, chan: string): string {
    PathJoin("miniseed/" + eventFname, MseedName(net, sta, loc, chan))
  }

  /** The file name reads back as network, station, location (empty for
      an empty location, which gives '..'), channel and 'mseed'. */
  lemma MseedNameLayout(net: string, sta: string, loc: string, chan: string)
    requires '.' !in net && '.' !in sta && '.' !in loc && '.' !in chan
    ensures Split(MseedName(net, sta, loc, chan), '.') == [net, sta, loc, chan, "mseed"]
  {
    var parts := [net, sta, loc, chan, "mseed"];
    assert Join(parts, '.') == MseedName(net, sta, loc, chan) by {
      assert Join(parts[4..], '.') == "mseed";
      assert Join(parts[3..], '.') == chan + "." + "mseed";
      assert Join(parts[2..], '.') == loc + "." + chan + "." + "mseed";
      assert Join(parts[1..], '.') == sta + "." + loc + "." + chan + "." + "mseed";
    }
    SplitJoin(parts, '.');
  }

  /** For a non-empty event name and names without '/', the path reads back
      as 'miniseed', the event name and the file name. */
  lemma MseedStorageLayout(eventFname: string, net: string, sta: string, loc: string, chan: string)
    requires |eventFname| > 0 && '/' !in eventFname
    requires '/' !in net && '/' !in sta && '/' !in loc && '/' !in chan
    ensures Split(MseedStorage(eventFname, net, sta, loc, chan), '/') == ["miniseed", eventFname, MseedName(net, sta, loc, chan)]
  {
    var name := MseedName(net, sta, loc, chan);
    assert '/' !in name;
    var a := "miniseed/" + eventFname;
    assert a[|a| - 1] == eventFname[|eventFname| - 1];
    assert MseedStorage(eventFname, net, sta, loc, chan) == "miniseed" + ['/'] + (eventFname + ['/'] + name);
    FirstPieceBefore("miniseed", '/', eventFname + ['/'] + name);
    FirstPieceBefore(eventFname, '/', name);
    SplitNone(name, '/');
  }

  // ---------------------------------------------------------------------------
  // The request window and the catalog rows

  /** starttime = origin - 1*60, endtime = origin + 2*60. */
  function RequestWindow(origin: real): (w: (real, real))
    ensures w.1 - w.0 == 180.0
    ensures w.0 < origin < w.1
    ensures origin - w.0 == 60.0
  {
    (origin - 60.0, origin + 120.0)
  }

  datatype Request = Request(eventFname: string, start: real, end: real)

  /** The request one CSV row leads to: its first column is the origin time.
      None where the row is empty (row[0] raises), `parseTime` (obspy's
      UTCDateTime) rejects it, or it has no 'T'. */
  function RowRequest(row: seq<string>, parseTime: string -> Option<real>): (r: Option<Request>)
    ensures r.None? <==> |row| == 0 || parseTime(row[0]).None? || 'T' !in row[0]
    ensures r.Some? ==>
      r.value.eventFname == EventFileName(row[0]).value
      && r.value.end - r.value.start == 180.0 && r.value.start < parseTime(row[0]).value < r.value.end
  {
    if |row| == 0 then None
    else
      match (parseTime(row[0]), EventFileName(row[0]))
      case (Some(t), Some(f)) =>
        var w := RequestWindow(t);
        Some(Request(f, w.0, w.1))
      case _ => None
  }

  /** What running the loop leaves: the requests issued, and whether a row
      raised and ended the script. */
  datatype Run = Run(requests: seq<Request>, failed: bool)

  /** The row loop: one request per row, in order, until a row raises. */
  function RunRows(rows: seq<seq<string>>, parseTime: string -> Option<real>): (r: Run)
    ensures |r.requests| <= |rows|
    ensures forall k :: 0 <= k < |r.requests| ==> RowRequest(rows[k], parseTime) == Some(r.requests[k])
    ensures !r.failed <==> |r.requests| == |rows|
    ensures r.failed ==> RowRequest(rows[|r.requests|], parseTime).None?
    decreases |rows|
  {
    if |rows| == 0 then Run([], false)
    else
      match RowRequest(rows[0], parseTime)
      case None => Run([], true)
      case Some(q) =>
        var rest := RunRows(rows[1..], parseTime);
        assert forall k :: 0 <= k < |rest.requests| ==> rows[1..][k] == rows[k + 1];
        Run([q] + rest.requests, rest.failed)
  }

  /** next(line, None) skips the header row, which is never read as an
      event; every later row is one request. */
  function Requests(csvRows: seq<seq<string>>, parseTime: string -> Option<real>): (r: Run)
    ensures |csvRows| <= 1 ==> r == Run([], false)
    ensures |csvRows| > 0 ==> |r.requests| < |csvRows|
    ensures forall k :: 0 <= k < |r.requests| ==> k + 1 < |csvRows| && RowRequest(csvRows[k + 1], parseTime) == Some(r.requests[k])
    ensures !r.failed ==> |csvRows| <= 1 || |r.requests| == |csvRows| - 1
    ensures r.failed ==> |r.requests| + 1 < |csvRows| && RowRequest(csvRows[|r.requests| + 1], parseTime).None?
  {
    if |csvRows| == 0 then Run([], false) else RunRows(csvRows[1..], parseTime)
  }
}
