# DICOM study scanner, modelled in Dafny

`wad2_dicomscanner.py` walks a study directory and builds a nested index of
what it finds: one study, one series per sub-directory, and one instance per
file that the DICOM reader accepts. The index is
`{'study': {'description': ..., 'series': [{'description': ..., 'number': ...,
'instance': [{'number': ..., 'filename': ...}, ...]}, ...]}}`. This project
models that study -> series -> instance scan and proves what it produces.

The filesystem and the DICOM reader are inputs to the model:

- The study directory is a sequence of `Entry` values in enumeration order.
  An entry either cannot be entered (`NotEnterable`, where `os.chdir` fails)
  or is a `SeriesDir` holding its files in enumeration order.
- Each `DicomFile` carries the outcome of reading it. `Unreadable` means the
  reader raised. `Readable(tags)` means it returned a data set, whose four
  tags (StudyDescription, SeriesDescription, SeriesNumber, InstanceNumber)
  may each be absent.
- The index is a `StudyRecord`. Its `study` field is `None` while the inner
  dictionary is still `{}`.
- A missing SeriesDescription, SeriesNumber or InstanceNumber is read
  without a guard, so the script ends with an uncaught exception and writes
  no index. The model returns `Err(MissingTag(tag, dicomdir, dicomfile))`
  for this.

Files:

- `dicom_scanner.dfy` (module `DicomScanner`) has three parts:
  - the data model;
  - a declarative reference definition of the result, `StudyOutcome`, built
    from `ReadableFiles`, `FirstMiss`, `SeriesOutcome`, `StudyReadable`,
    `FirstAbort` and `SeriesList`;
  - the imperative scan, proved against that definition: `Scan` loops over
    the entries, `ScanEntry` is one entry, `ScanSeries` loops over a
    directory's files, and `ScanFile` handles one file. The loops keep the
    script's own state: `firstInStudy`, `firstInSeries`, `seriesInfo` and
    the study dictionary.
- `scanner_properties.dfy` (module `ScannerProperties`) holds the properties
  of `StudyOutcome`, and so of every run of `Scan`:
  - skipped entries and files have no effect;
  - the shape of a series record;
  - when the study dictionary stays empty;
  - where the study description comes from;
  - how many series are appended;
  - exactly when and where the scan aborts;
  - a worked two-directory scenario.

Where the code and the written description of the system disagree, the
model follows the code. The description suggests that a missing
SeriesDescription could fall back to a default, as StudyDescription does.
The code reads `info.SeriesDescription` outside any `try`
(`WAD/WAD/wad2_dicomscanner.py:74`), so the model aborts there.

## Model

| member | source | states |
|---|---|---|
| DicomScanner.Scan | WAD/WAD/wad2_dicomscanner.py:35-83 | The result of the whole loop over the study's entries equals the reference definition `StudyOutcome`: an abort as soon as any directory's scan aborts, otherwise the study dictionary built from all readable files and the series of all directories. |
| DicomScanner.ScanEntry | WAD/WAD/wad2_dicomscanner.py:44-83 | One entry: an entry that cannot be entered changes nothing. A directory aborts exactly with its own first missing tag. Otherwise the study state afterwards is the one for the readable files seen so far plus this directory's, with this directory's series appended only if one of its files was readable. |
| DicomScanner.ScanSeries | WAD/WAD/wad2_dicomscanner.py:49-79 | The loop over one directory's files aborts exactly with `FirstMiss` of its readable files. Otherwise `seriesInfo` is empty if no file was readable, and otherwise holds the first readable file's description and number with one instance per readable file. `firstInStudy` and the study dictionary are updated for the files read. |
| DicomScanner.ScanFile | WAD/WAD/wad2_dicomscanner.py:57-79 | One file: an unreadable file leaves the state as it was. A readable one sets the study description if it is the first readable file of the scan (falling back to "NoStudyDescription"), and sets the series description and number if it is the first of its directory, aborting if either is missing. It then aborts if InstanceNumber is missing and otherwise appends its instance. The carried state invariant is preserved. |
| DicomScanner.FirstMiss | WAD/WAD/wad2_dicomscanner.py:71-78 | A directory's readable files produce no abort exactly when the first one has SeriesDescription and SeriesNumber and every one has InstanceNumber. An abort always names the directory being scanned. |
| DicomScanner.ReadableFiles | WAD/WAD/wad2_dicomscanner.py:55-60 | The files the reader accepts, in order, are never more than the files listed. |
| DicomScanner.Instances | WAD/WAD/wad2_dicomscanner.py:78-79 | Exactly one instance record per readable file. |
| ScannerProperties.InstancesAt | WAD/WAD/wad2_dicomscanner.py:78-79 | The k-th instance record holds the k-th readable file's InstanceNumber and the path `studyDataDir + "/" + dicomdir + "/" + dicomfile`. |
| ScannerProperties.SeriesRecordOfDirectory | WAD/WAD/wad2_dicomscanner.py:54-82 | A directory that does not abort yields a series record exactly when at least one of its files is readable. The record's description and number are those of the first readable file. It holds one instance per readable file, in enumeration order, with that file's InstanceNumber and path. |
| ScannerProperties.UnreadableFileIgnored | WAD/WAD/wad2_dicomscanner.py:57-60 | Inserting a file the reader rejects anywhere in any directory leaves the result, abort or index, unchanged. |
| ScannerProperties.NotEnterableIgnored | WAD/WAD/wad2_dicomscanner.py:44-47 | Inserting an entry that cannot be entered anywhere among the entries leaves the result unchanged. |
| ScannerProperties.ScanIgnoresSkipped | WAD/WAD/wad2_dicomscanner.py:44-60 | Dropping every entry that cannot be entered and every unreadable file gives the same result. |
| ScannerProperties.EmptyStudyIff | WAD/WAD/wad2_dicomscanner.py:36-69 | The result is `{'study': {}}` exactly when no directory has a readable file. |
| ScannerProperties.SeriesNeedStudyKey | WAD/WAD/wad2_dicomscanner.py:62-82 | A series is appended only after some file was readable, so the `series` list the append at line 82 uses always exists. |
| ScannerProperties.StudyDescriptionFromFirstReadable | WAD/WAD/wad2_dicomscanner.py:62-67 | If the scan does not abort and entry k is the first entry with a readable file, the study dictionary exists. Its description is the StudyDescription of entry k's first readable file, or "NoStudyDescription" when that file lacks it. |
| ScannerProperties.SeriesCount | WAD/WAD/wad2_dicomscanner.py:81-82 | A scan that does not abort appends exactly one series per directory with a readable file. With no such directory the study dictionary is empty. |
| ScannerProperties.AbortIff | WAD/WAD/wad2_dicomscanner.py:71-79 | The scan aborts exactly when some directory's first readable file lacks SeriesDescription or SeriesNumber, or some readable file lacks InstanceNumber. |
| ScannerProperties.EntryAbortIff | WAD/WAD/wad2_dicomscanner.py:71-78 | The same, for one entry: its scan aborts exactly when it misses a required tag. |
| ScannerProperties.FirstMissNamesFile | WAD/WAD/wad2_dicomscanner.py:71-78 | A directory's abort names a readable file that lacks the reported tag, and every earlier readable file has all required tags. A SeriesNumber abort happens only on a file that has SeriesDescription. SeriesDescription and SeriesNumber aborts only happen on the first readable file. |
| ScannerProperties.AbortNamesDirectory | WAD/WAD/wad2_dicomscanner.py:42-79 | An aborted scan stops at the first series directory, in scan order, whose own scan aborts, and that directory is the one named in the error. |
| ScannerProperties.AbortNamesFile | WAD/WAD/wad2_dicomscanner.py:42-79 | An aborted scan reports a tag that is actually missing from a readable file of the named directory. |
| ScannerProperties.TwoDirectoriesScenario | WAD/WAD/wad2_dicomscanner.py:35-83 | A study with `seriesA` (two valid files, numbers 1 and 2) and `seriesB` (one unreadable file) gives one series for `seriesA` with two instances at `study/seriesA/f1` and `study/seriesA/f2`, and nothing for `seriesB`. |

## Left out

- Reading DICOM (`dicom.read_file`, line 58) is not modelled. Its outcome for each file is an input. The bare `except` at line 59 catches every exception, and the model treats all of them as `Unreadable`.
- The bare `except` around `info.StudyDescription` (lines 64-67) catches any error. The model treats every such error as the tag being absent.
- Tag values are opaque (`TagValue`). The scanner copies them into the index unchanged, so their DICOM value representations are not modelled.
- Directory enumeration (`glob.iglob("*")`, lines 42 and 55) is not modelled. Its order and its omission of hidden names are given by the input sequences.
- The `chdir` into the study directory and its failure (lines 28-32) are not modelled. The model starts once that `chdir` has succeeded.
- The `chdir` back to `studyDataDir` after each directory (line 83) is not modelled; the model assumes it succeeds. That holds for an absolute `studyDataDir`. With a relative one, the path resolves against the series directory and may fail, which would end the run. A filesystem model would be needed for this.
- The argument check (lines 19-23) is not modelled. It only prints a message; `studyDataDir` is a parameter.
- `os.getcwd()` (line 26) and writing `input.json` (lines 89-95) are not modelled: the model's result is the index, not its JSON text.
- Progress and error messages (lines 43, 47, 60, 90) and the Python 2/3 `unicode` shim (lines 10-15) are not modelled.
- The counters `i_iSeries` and `i_iInstance` (lines 39 and 50) are not modelled. They are set and never read.
- An aborted run raises an `AttributeError` that names only the missing attribute. The model's error also names the directory and the file, so that the abort lemmas can say where the run stops.
- A partly filled series dictionary at the moment of an abort (after line 74 or 75) is not modelled, because it is never written out.
- DicomScanner.ReadableFiles: its own contract only bounds the length. What it keeps and what it drops is stated by `UnreadableFileIgnored`, `ScanIgnoresSkipped` and `SeriesRecordOfDirectory`.
