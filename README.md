# SeisData_Tools scripts in Dafny

This project models the computational core of four seismic data scripts of
SeisData_Tools and proves properties of that model. The scripts download,
convert and re-time waveform data:

- `Continuous_Waveform_Hinet.py` reads a CMT catalog. It picks the PDE and
  PDEW lines, cuts out the origin time, derives the event id and the JST start
  of the download window, tries every network, and copies a rewritten header
  line into `CMTSOLUTION`.
- `Win32toSac.py` derives the per-network file names of each downloaded event.
  It writes a `STATIONS` table with one row per station id, in first-occurrence
  order, and `"Unknown"` for an empty network name.
- `Sac_Time_Revise.py` holds three calendar helpers: `Date2day`, `Day2date`
  and `Day2day`. It moves each trace's SAC reference time from JST to UTC
  (hour − 9, borrowing a day). Then it computes the origin offset `o` from the
  field-wise differences and writes a seven-line `sac` macro that stores both.
- `mass-downloader.py` derives an event file name from an ISO-8601 origin
  time. It also builds the miniSEED storage path and the request window from
  60 s before to 120 s after the origin.

Layout:

- `text.dfy` (module `Text`): the Python string operations the scripts use.
  These are `split(c)`, `split()`, `join`, `zfill`, clamped slicing, `in` on
  strings, and decimal digits.
- `calendar.dfy` (module `Calendar`): the proleptic Gregorian calendar. This is
  the leap rule `y%400==0 or (y%4==0 and y%100!=0)`, month lengths,
  day-of-year, and an absolute day number. The day number is the independent
  reference against which the scripts' field-wise date arithmetic is judged.
- `sac_time_revise.dfy`, `hinet_download.dfy`, `win32_to_sac.dfy`,
  `mass_downloader.dfy`: one module per script.

Inputs that come from outside are parameters:

- values read from files (SAC headers, catalog fields);
- the remote services' answers;
- Python's `float()` and `str()` of a float;
- obspy's timestamp parsing.

Seconds are `real`. Integers are unbounded, which is Python's own integer
semantics.

## Model

| member | source | states |
|---|---|---|
| Calendar.MonthDay | data-download/Hinet/Sac_Time_Revise.py:25-28 | the month and day on which an ordinal day of the year falls form a valid date whose day of the year is that day |
| Calendar.MonthDayOfDate | data-download/Hinet/Sac_Time_Revise.py:31-45 | a valid date's day of the year lies in 1..year length, and MonthDay gives the date back |
| Calendar.DayOfYearInYear | data-download/Hinet/Sac_Time_Revise.py:31-45 | every valid date's day of the year lies within its year |
| Calendar.MonthsFillYear | data-download/Hinet/Sac_Time_Revise.py:32 | the twelve month lengths add up to 365 or 366 by the leap rule |
| Calendar.YearStep | data-download/Hinet/Sac_Time_Revise.py:40 | consecutive 1 January day numbers differ by the leap rule's year length |
| Calendar.Normalize | data-download/Hinet/Sac_Time_Revise.py:26-27 | adding days to 1 January lands on day 1..year length of some year with the same absolute day number |
| SacTimeRevise.CumulativeDaysAgree | data-download/Hinet/Sac_Time_Revise.py:32-44 | the cumulative table plus the leap-year correction after February equals the sum of the earlier months' lengths |
| SacTimeRevise.Date2day | data-download/Hinet/Sac_Time_Revise.py:31-45 | returns a value exactly when 1 <= month <= 12; the value is the day of the year; for a valid date it lies in 1..year length and maps back to (month, day) |
| SacTimeRevise.Date2dayExample | data-download/Hinet/Sac_Time_Revise.py:64 | Date2day(2008, 5, 2) is 123 |
| SacTimeRevise.FormatDate | data-download/Hinet/Sac_Time_Revise.py:28 | strftime "%Y-%m-%d": the year zero-padded to four digits, month and day to two, joined by '-'; ParseFormatDate reads it back and FormatSmallYear shows the year padding |
| SacTimeRevise.FormatSmallYear | data-download/Hinet/Sac_Time_Revise.py:28 | 1 January of year 5 prints as "0005-01-01" |
| SacTimeRevise.ParseFormatDate | data-download/Hinet/Sac_Time_Revise.py:28 | the "%Y-%m-%d" text of a valid date reads back as the same year, month and day |
| SacTimeRevise.Day2date | data-download/Hinet/Sac_Time_Revise.py:25-28 | 1 January of the year plus day − 1 days, formatted; no value where the year or the year reached lies outside 1..9999, where Python raises; Day2dateRoundTrip, Date2dayRoundTrip, Day2dateAnyDay and Day2dateExample state its properties |
| SacTimeRevise.Day2dateRoundTrip | data-download/Hinet/Sac_Time_Revise.py:25-28 | for a day inside the year, Day2date gives a date of that year whose day of the year (Date2day) is that day |
| SacTimeRevise.Date2dayRoundTrip | data-download/Hinet/Sac_Time_Revise.py:25-45 | Day2date of a valid date's day of the year is that date's text |
| SacTimeRevise.Day2dateAnyDay | data-download/Hinet/Sac_Time_Revise.py:25-28 | for any day offset, the date Day2date names has the same absolute day number as day `day` of `year` |
| SacTimeRevise.Day2dateExample | data-download/Hinet/Sac_Time_Revise.py:63 | Day2date(2008, 123) is "2008-05-02" |
| SacTimeRevise.Day2day | data-download/Hinet/Sac_Time_Revise.py:47-60 | the normalisation as written, including the subtraction of 366 past the end of a common year; Day2dayCases, Day2dayKeepsDay, Day2dayCommonYearOverflow and Day2dayAgreesBelowEnd state its properties |
| SacTimeRevise.Day2dayCases | data-download/Hinet/Sac_Time_Revise.py:47-60 | inside the year nothing changes; at or below 0 the previous year's length is added; past the year's end 366 is subtracted |
| SacTimeRevise.Day2dayExample | data-download/Hinet/Sac_Time_Revise.py:65-66 | Day2day(2009, 0) is (2008, 366) |
| SacTimeRevise.Day2dayKeepsDay | data-download/Hinet/Sac_Time_Revise.py:47-60 | except for an overflow of a common year, Day2day keeps the absolute day number |
| SacTimeRevise.Day2dayCommonYearOverflow | data-download/Hinet/Sac_Time_Revise.py:52-53 | an overflow of a common year lands one day early; (2009, 366) becomes (2010, 0) |
| SacTimeRevise.Day2dayIntended | data-download/Hinet/Sac_Time_Revise.py:47-60 | the corrected normalisation keeps the absolute day number and, for days up to a year outside, lands inside the year |
| SacTimeRevise.Day2dayAgreesBelowEnd | data-download/Hinet/Sac_Time_Revise.py:47-60 | as written and corrected agree on every day that does not pass the year's end |
| SacTimeRevise.ShiftFacts | data-download/Hinet/Sac_Time_Revise.py:117-122 | on a valid header, the shifted reference time is valid and exactly 9 hours (32400 s) earlier |
| SacTimeRevise.FieldOffset | data-download/Hinet/Sac_Time_Revise.py:128-141 | the field-wise differences of line 128 combined as lines 132, 134, 137, 139 and 141 do, for a given number of days per year of difference; FieldOffsetElapsed and OriginOffsetElapsed tie it to the elapsed time |
| SacTimeRevise.OffsetAsWritten | data-download/Hinet/Sac_Time_Revise.py:128-141 | the offset as written: FieldOffset with 366 or 365 days per year by the leap status of nzyear − 1 (origin later), cyear − 1 (origin earlier), or 365 (same year); OffsetSameYear, OffsetNextYear, OffsetPreviousYear and OffsetCounterexample state when it is the elapsed time |
| SacTimeRevise.OffsetSameYear | data-download/Hinet/Sac_Time_Revise.py:140-141 | with equal years, the offset formula is the elapsed time from reference time to origin |
| SacTimeRevise.OffsetNextYear | data-download/Hinet/Sac_Time_Revise.py:130-134 | with the origin one year later, the formula is the elapsed time if and only if neither the reference year nor the year before it is a leap year |
| SacTimeRevise.OffsetPreviousYear | data-download/Hinet/Sac_Time_Revise.py:135-139 | with the origin one year earlier, the formula is the elapsed time if and only if neither the origin year nor the year before it is a leap year |
| SacTimeRevise.OffsetCounterexample | data-download/Hinet/Sac_Time_Revise.py:131-132 | for reference 2008-366 23:00 and origin 2009-001 00:00 the formula gives -82800 s where 3600 s elapse |
| SacTimeRevise.OriginOffset | data-download/Hinet/Sac_Time_Revise.py:128-141 | the corrected offset is the elapsed time from reference time to origin whenever the years differ by at most one |
| SacTimeRevise.OutputPath | data-download/Hinet/Sac_Time_Revise.py:147-149 | `<path>/<sub_output_dir>/` followed by the last '/'-component of the input file; OutputPathShape states that the file name is kept |
| SacTimeRevise.OutputPathShape | data-download/Hinet/Sac_Time_Revise.py:147-149 | the output file keeps the input's last path component and sits under `<path>/<sub_output_dir>/` |
| SacTimeRevise.MacroLines | data-download/Hinet/Sac_Time_Revise.py:151-157 | the seven macro lines `r <infile>`, `ch o <o> `, `ch nzyear <y> `, `ch nzjday <d> `, `ch nzhour <h> `, `w <outfile>`, `q `, without their newlines |
| SacTimeRevise.SacMacro | data-download/Hinet/Sac_Time_Revise.py:151-157 | the macro text: the seven lines each ended by a newline; MacroReadsBack reads it back line by line and BuildMacro builds it by `+=` |
| SacTimeRevise.MacroReadsBack | data-download/Hinet/Sac_Time_Revise.py:151-157 | read line by line, the macro is exactly `r`, `ch o`, `ch nzyear`, `ch nzjday`, `ch nzhour`, `w`, `q`, in that order |
| SacTimeRevise.ReviseTrace | data-download/Hinet/Sac_Time_Revise.py:117-157 | only hour, day and year change; the hour stays in 0..23 and is hour − 9 modulo 24; the day is Day2day of the borrowed day; a valid header moves exactly 9 h earlier; `o` is the offset formula; the macro text is SacMacro of these values |
| SacTimeRevise.BuildMacro | data-download/Hinet/Sac_Time_Revise.py:151-157 | the text written line by line is the seven macro lines, each ended by a newline |
| HinetDownload.Classify | data-download/Hinet/Continuous_Waveform_Hinet.py:65-73 | a line is skipped if and only if it lacks "PDE"; it is read as PDE if and only if it contains "PDE ", and as PDEW if and only if it contains "PDEW" but not "PDE " |
| HinetDownload.ExtractOrigin | data-download/Hinet/Continuous_Waveform_Hinet.py:67-78 | PDE takes whitespace fields 1..6 and PDEW takes fields 1..5 plus raw characters 5..8 as the year; the seconds are cut at their first '.'; too few fields is an error |
| HinetDownload.Magnitude | data-download/Hinet/Continuous_Waveform_Hinet.py:72-79 | the larger of fields 10 and 11 (PDE) or 9 and 10 (PDEW); an error where a field is missing or not a number |
| HinetDownload.ParseOrigin | data-download/Hinet/Continuous_Waveform_Hinet.py:83-85 | a parsed origin is a real date and time in years 1..9999 |
| HinetDownload.MaxEpochSecondsIsLastSecond | data-download/Hinet/Continuous_Waveform_Hinet.py:86 | the overflow bound is the epoch second of 9999-12-31 23:59:59 |
| HinetDownload.DownloadStart | data-download/Hinet/Continuous_Waveform_Hinet.py:85-87 | the start is the origin plus 32400 s minus 150 s, an overflow error past year 9999; the 8-minute window contains the JST origin |
| HinetDownload.EventId | data-download/Hinet/Continuous_Waveform_Hinet.py:92 | year zfilled to 4, month, day, hour, minute and second zfilled to 2, concatenated; EventIdLayout and EventIdRoundTrip state its layout and that it decodes back |
| HinetDownload.EventIdLayout | data-download/Hinet/Continuous_Waveform_Hinet.py:92 | fields within their widths give a 14-character id with each zero-padded field in its own columns |
| HinetDownload.EventIdRoundTrip | data-download/Hinet/Continuous_Waveform_Hinet.py:92 | the id of an origin that parses is 14 digits that decode back to that date and time |
| HinetDownload.OriginOutcome | data-download/Hinet/Continuous_Waveform_Hinet.py:82-92 | a failed magnitude filter is the stale-variable path; otherwise strptime failing or the start passing year 9999 ends the script, and a valid origin gives its event id and download start; OriginDownload states what a download carries |
| HinetDownload.FormOutcome | data-download/Hinet/Continuous_Waveform_Hinet.py:67-92 | a PDE or PDEW line ends the script when its fields or magnitude cannot be read, and otherwise leads to OriginOutcome with the filter 0 < mag < 10 |
| HinetDownload.LineOutcome | data-download/Hinet/Continuous_Waveform_Hinet.py:65-92 | a "PDE" line of neither form takes the stale-variable path; a PDE or PDEW line leads to FormOutcome; DownloadOutcome states what a download requires |
| HinetDownload.OriginDownload | data-download/Hinet/Continuous_Waveform_Hinet.py:82-92 | a download carries an accepted magnitude, the parsed origin's id and its start time |
| HinetDownload.DownloadOutcome | data-download/Hinet/Continuous_Waveform_Hinet.py:65-92 | a line leads to a download only if it is of the PDE or PDEW form, its origin fields and both magnitude fields are read, and its magnitude lies strictly between 0 and 10 |
| HinetDownload.Scan | data-download/Hinet/Continuous_Waveform_Hinet.py:61-92 | the reference scan of the first n lines: each line at or after startline that contains "PDE" is handled with its LineOutcome until one fails; ScanOrder, ScanHandles, ScanFailsLast and ScanStops state its properties |
| HinetDownload.ScanCatalog | data-download/Hinet/Continuous_Waveform_Hinet.py:61-65 | the loop's items are exactly those of the reference scan `Scan` over all catalog lines |
| HinetDownload.SelectedBelowFacts | data-download/Hinet/Continuous_Waveform_Hinet.py:61-65 | the selected indices below n are the lines at or after startline that contain "PDE", every one of them, in increasing order |
| HinetDownload.ScanOrder | data-download/Hinet/Continuous_Waveform_Hinet.py:61-65 | the scan handles exactly the selected lines up to and including the first that fails (all lines if none fails), in order |
| HinetDownload.ScanHandles | data-download/Hinet/Continuous_Waveform_Hinet.py:64-92 | every handled item is a selected line paired with that line's outcome |
| HinetDownload.ScanFailsLast | data-download/Hinet/Continuous_Waveform_Hinet.py:61-92 | only the last handled line can have failed |
| HinetDownload.ScanStops | data-download/Hinet/Continuous_Waveform_Hinet.py:61-92 | once a line has failed, later lines add nothing |
| HinetDownload.NetworkFiles | data-download/Hinet/Continuous_Waveform_Hinet.py:21 | the names `<evid>_<netid>.cnt`, `<netid>.ch` and `<out_dir>/<evid>` passed to the download service; ReadsDownloadedFiles ties them to the converter's paths |
| HinetDownload.DownloadNetworks | data-download/Hinet/Continuous_Waveform_Hinet.py:96-100 | every comma-separated network is requested with the names `<evid>_<netid>.cnt`, `<netid>.ch`, `<out_dir>/<evid>`, and the event counts as downloaded if and only if some attempt succeeded |
| HinetDownload.HeaderLine | data-download/Hinet/Continuous_Waveform_Hinet.py:106 | the rewritten line has the input's length, with characters 1..4, a blank, then the rest |
| HinetDownload.HeaderLineFieldsPde | data-download/Hinet/Continuous_Waveform_Hinet.py:106 | a PDE line's whitespace fields survive the rewrite unchanged |
| HinetDownload.HeaderLineFieldsPdew | data-download/Hinet/Continuous_Waveform_Hinet.py:106 | a PDEW line's glued tag and year become two fields, so the year is field 1 as for PDE |
| Win32ToSac.EventIdOf | data-fetch/Hinet/Win32toSac.py:47-48 | the last '/'-component of the event directory; EventIdOfDirectory states that it gives the downloader's event id back |
| Win32ToSac.EventIdOfDirectory | data-fetch/Hinet/Win32toSac.py:47-48 | the last '/'-component of `<dir>/<evid>` is evid |
| Win32ToSac.NetworkPaths | data-fetch/Hinet/Win32toSac.py:55-58 | `<path>/<evid>_<iid>.cnt`, `<path>/<iid>.ch`, `<output_dir>/<evid>/SAC` and `<output_dir>/<evid>/instrument`; ReadsDownloadedFiles states that they are the files the downloader wrote |
| Win32ToSac.ReadsDownloadedFiles | data-fetch/Hinet/Win32toSac.py:53-58 | in the downloader's event directory, the data and channel-table paths are that directory joined with the downloader's file names; outputs go to `<output_dir>/<evid>/SAC` and `/instrument` |
| Win32ToSac.ConvertEvent | data-fetch/Hinet/Win32toSac.py:53-60 | one conversion request per comma-separated network id, in order, with that network's paths |
| Win32ToSac.RowOf | data-fetch/Hinet/Win32toSac.py:81-84 | the network name is never empty: an empty one becomes "Unknown" and a non-empty one is kept; station and coordinates are copied |
| Win32ToSac.FirstIndices | data-fetch/Hinet/Win32toSac.py:67-80 | the files that are the first of their station id, in increasing file order, and all of them |
| Win32ToSac.TableUpTo | data-fetch/Hinet/Win32toSac.py:65-84 | the reference table over the first n files: the row of each file that is the first of its station id, in file order; TableRows states it |
| Win32ToSac.StationTable | data-fetch/Hinet/Win32toSac.py:65-84 | the reference table over all files; WriteStations is proved to write it, and StationIdsDistinct, StationIdsCovered and StationCount state its properties |
| Win32ToSac.WriteStations | data-fetch/Hinet/Win32toSac.py:65-84 | the rows written are the rows of the first file of each station id, in file order |
| Win32ToSac.TableRows | data-fetch/Hinet/Win32toSac.py:65-84 | the table's rows are the rows of the files FirstIndices lists, one for one and in that order |
| Win32ToSac.IdSetStep | data-fetch/Hinet/Win32toSac.py:77-80 | a file is the first of its station id exactly when its id is not among the ids seen before it, and it adds its id to them |
| Win32ToSac.StationIdsDistinct | data-fetch/Hinet/Win32toSac.py:77-80 | no two rows share a station id |
| Win32ToSac.StationIdsCovered | data-fetch/Hinet/Win32toSac.py:65-84 | every station id met has a row, and it is the row of the first file with that id |
| Win32ToSac.StationCount | data-fetch/Hinet/Win32toSac.py:65-84 | the number of rows equals the number of distinct station ids |
| MassDownloader.EventFileName | workflows/SeisTomo_Tutoriala_DATA/data-process/mass-downloader.py:29 | a name exists if and only if the timestamp contains a 'T' |
| MassDownloader.EventFileNameDropsSeparators | workflows/SeisTomo_Tutoriala_DATA/data-process/mass-downloader.py:29 | the name is the part before the first 'T' without '-', then the second 'T'-piece without 'Z', '.' and ':' |
| MassDownloader.EventFileNameParts | workflows/SeisTomo_Tutoriala_DATA/data-process/mass-downloader.py:29 | text after a second 'T' does not enter the name |
| MassDownloader.EventFileNameOfIso | workflows/SeisTomo_Tutoriala_DATA/data-process/mass-downloader.py:29 | a `YYYY-MM-DDThh:mm:ss[.f]Z` timestamp gives its date digits, then its time digits and fraction, with no separators |
| MassDownloader.PathJoin | workflows/SeisTomo_Tutoriala_DATA/data-process/mass-downloader.py:17 | the joined path ends with the second part and, unless that is absolute, starts with the first |
| MassDownloader.MseedName | workflows/SeisTomo_Tutoriala_DATA/data-process/mass-downloader.py:17 | `<network>.<station>.<location>.<channel>.mseed`; MseedNameLayout reads it back |
| MassDownloader.MseedStorage | workflows/SeisTomo_Tutoriala_DATA/data-process/mass-downloader.py:17 | posixpath.join of `miniseed/<event_fname>` and MseedName; MseedStorageLayout reads it back |
| MassDownloader.MseedNameLayout | workflows/SeisTomo_Tutoriala_DATA/data-process/mass-downloader.py:17 | the file name splits on '.' into network, station, location, channel and "mseed"; an empty location is the empty piece of ".." |
| MassDownloader.MseedStorageLayout | workflows/SeisTomo_Tutoriala_DATA/data-process/mass-downloader.py:17 | for plain names the path splits on '/' into "miniseed", the event name and the file name |
| MassDownloader.RequestWindow | workflows/SeisTomo_Tutoriala_DATA/data-process/mass-downloader.py:41-42 | the window lasts 180 s, starts 60 s before the origin and strictly contains it |
| MassDownloader.RowRequest | workflows/SeisTomo_Tutoriala_DATA/data-process/mass-downloader.py:27-42 | a row fails if and only if it is empty, its time does not parse or has no 'T'; otherwise its request carries the file name and a 180 s window around the origin |
| MassDownloader.RunRows | workflows/SeisTomo_Tutoriala_DATA/data-process/mass-downloader.py:27-29 | one request per row, in order; the run fails exactly when some row fails, and stops at that row |
| MassDownloader.Requests | workflows/SeisTomo_Tutoriala_DATA/data-process/mass-downloader.py:24-27 | the header row is never read as an event; request k comes from row k + 1; with no failure every later row gives one request |

`ReviseTrace` writes the offset as the script does (`OffsetAsWritten`). The
script's macro contains that value, and the model reproduces the script's
output. `OriginOffset` is the corrected formula. `OffsetSameYear`,
`OffsetNextYear` and `OffsetPreviousYear` state exactly when the two agree.
`ReviseTrace` likewise keeps `Day2day` as written. `Day2dayAgreesBelowEnd`
shows that this equals the corrected `Day2dayIntended` on every day that does
not pass the year's end. That covers every day the shift can produce from a
valid header, since the shift only ever decrements the day. A header outside
that range can still reach the overflow: day 366 of a common year with
nzhour ≥ 9 gives `Day2day` day 366, where as written it yields (y + 1, 0)
and corrected (y + 1, 1).

Where the code differs from what its comments describe, the model follows
the code: `Day2day` subtracts 366 even in a common year (see Findings).

## Left out

- Network downloads: the HinetPy client, `get_continuous_waveform`, the FDSN
  mass downloader and its domain and restriction settings. These are remote
  services. They appear only as a success function per network (`fetch`) or
  not at all. The retry pause `time.sleep(5)` and the exception swallowing are
  part of them.
- Format conversion (`win32.extract_sac`, `extract_pz`), obspy `read` and SAC
  header access. These are a foreign binary library. The header values are
  inputs (`SacTime`, `SacStation`).
- The `sac` subprocess, `os.system` (`mkdir -p`, `cp`), `glob` listings and all
  file open, write and close calls. In particular, these are left out:
  - how the files are sorted;
  - the `doc.close()` placed inside the copy loop of
    Continuous_Waveform_Hinet.py;
  - the hard-coded `Waveform/` path at line 105;
  - the copy of the twelve lines after the header.
- The outer loops over event directories and trace files in
  Sac_Time_Revise.py, and the parsing of the `CMTSOLUTION` header fields and
  time shift that feed them. Their results are the inputs `Origin` and
  `SacTime`.
- The stale-variable paths of Continuous_Waveform_Hinet.py. One is a line that
  fails the magnitude filter. The other is a "PDE" line of neither form. Both
  reuse the previous line's origin and start time. The model marks them
  `Unmodelled` and does not follow them.
- Float handling. This covers:
  - Python's `float()`, which is a parameter;
  - how `str()` prints the offset in the macro, which is the parameter
    `render` of `ReviseTrace`;
  - the `%8.4f`/`%7.1f` formatting of the STATIONS columns;
  - float rounding in `csecond - nzsec - nzmsec/1000`, which is computed
    exactly on reals;
  - obspy's `UTCDateTime` parsing, which is the parameter `parseTime`.
- Command-line argument checks and usage messages, and the unused imports.
- SacTimeRevise.FormatDate: pads years below 1000 to four digits, as
  current CPython's `%Y` does. How `%Y` prints such years depends on the
  interpreter version and the C library: older CPython releases on glibc print
  them unpadded. The model does not cover that variant.
- HinetDownload.ParseOrigin: the model parses the six fields separately. It
  does not re-parse the joined string. This differs only for a field that
  itself contains '-', ':' or a blank. Non-ASCII digits and the " 5" form that
  `%d` also accepts are not modelled.
- MassDownloader.MseedStorageLayout: covers a non-empty event name. For an
  empty one, posixpath.join gives `miniseed/<file>` (modelled by `PathJoin`,
  not stated as a lemma).

## Findings

| source | as written | input that shows it | evidently intended | confidence | as-written member | corrected member |
|---|---|---|---|---|---|---|
| data-download/Hinet/Sac_Time_Revise.py:52-53 | a day past the end of a common year moves to the next year minus 366 | Day2day(2009, 366) gives [2010, 0], which is 31 December 2009 | subtract 365 in a common year, giving [2010, 1] | high; not executed | SacTimeRevise.Day2dayCommonYearOverflow | SacTimeRevise.Day2dayIntended |
| data-download/Hinet/Sac_Time_Revise.py:130-139 | across a year boundary the per-year multiplier is 366 when the year before the earlier of the two years is a leap year | reference 2008-366 23:00 UTC, origin 2009-001 00:00 gives o = -82800 s | the length of the earlier year, giving o = 3600 s | high; not executed | SacTimeRevise.OffsetCounterexample | SacTimeRevise.OriginOffset |
