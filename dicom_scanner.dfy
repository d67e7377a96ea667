/** A model of the study -> series -> instance scan of wad2_dicomscanner.py.

    The filesystem and the DICOM reader are input data: the study directory is
    a sequence of top-level entries in enumeration order, each entry either
    cannot be entered or is a directory holding a sequence of files, and each
    file read either fails or yields a data set whose tags may be absent.

    `StudyOutcome` is a declarative reference definition of what the scan
    produces; `Scan` is the loop nest of the script, proved to compute it. */
module DicomScanner {

  datatype Option<T> = None | Some(value: T)

  /** A tag value handed over by the DICOM reader as is; the scanner copies it
      into the index without interpreting it. */
  datatype TagValue = IntValue(i: int) | TextValue(s: string)

  /** The four header tags the scanner looks at; a data set may lack any of them. */
  datatype Tags = Tags(
    studyDescription: Option<string>,
    seriesDescription: Option<string>,
    seriesNumber: Option<TagValue>,
    instanceNumber: Option<TagValue>)

  /** The outcome of reading one file as DICOM: an exception, or a data set. */
  datatype Reading = Unreadable | Readable(tags: Tags)

  datatype DicomFile = DicomFile(name: string, reading: Reading)

  /** A top-level entry of the study directory: changing into it fails, or it
      is a series directory whose files are listed in enumeration order. */
  datatype Entry =
    | NotEnterable(name: string)
    | SeriesDir(name: string, files: seq<DicomFile>)

  datatype InstanceRecord = InstanceRecord(number: TagValue, filename: string)

  datatype SeriesRecord = SeriesRecord(description: string, number: TagValue, instance: seq<InstanceRecord>)

  datatype StudyBody = StudyBody(description: string, series: seq<SeriesRecord>)

  /** The whole index `{'study': ...}`; `study` is None while the inner
      dictionary is still empty, that is, before any file was read. */
  datatype StudyRecord = StudyRecord(study: Option<StudyBody>)

  /** The tags whose absence is not caught and so ends the run. */
  datatype RequiredTag = SeriesDescription | SeriesNumber | InstanceNumber

  datatype ScanError = MissingTag(tag: RequiredTag, dicomdir: string, dicomfile: string)

  datatype Result<T> = Ok(value: T) | Err(error: ScanError)

  const NoStudyDescription: string := "NoStudyDescription"

  /** A file the DICOM reader accepted, with the data set it read. */
  datatype ReadFile = ReadFile(name: string, tags: Tags)

  /** The path recorded for an instance: built from the study directory as
      given on the command line, not from the current directory. */
  function InstanceFilename(studyDataDir: string, dicomdir: string, dicomfile: string): string
  {
    studyDataDir + "/" + dicomdir + "/" + dicomfile
  }

  // ---------------------------------------------------------------------
  // One series directory

  /** The files of a directory that the reader accepts, in enumeration order. */
  function ReadableFiles(files: seq<DicomFile>): (rd: seq<ReadFile>)
    ensures |rd| <= |files|
  {
    if files == [] then []
    else
      var last := files[|files| - 1];
      ReadableFiles(files[..|files| - 1])
        + match last.reading
          case Readable(tags) => [ReadFile(last.name, tags)]
          case Unreadable => []
  }

  /** The tag a readable file trips over: the first readable file of a series
      needs SeriesDescription and SeriesNumber, every readable file needs
      InstanceNumber, and they are accessed in that order. */
  function MissAt(dicomdir: string, f: ReadFile, firstInSeries: bool): Option<ScanError>
  {
    var info := f.tags;
    if firstInSeries && info.seriesDescription.None? then Some(MissingTag(SeriesDescription, dicomdir, f.name))
    else if firstInSeries && info.seriesNumber.None? then Some(MissingTag(SeriesNumber, dicomdir, f.name))
    else if info.instanceNumber.None? then Some(MissingTag(InstanceNumber, dicomdir, f.name))
    else None
  }

  predicate HasInstanceNumbers(rd: seq<ReadFile>)
  {
    forall k | 0 <= k < |rd| :: rd[k].tags.instanceNumber.Some?
  }

  /** The readable files of a directory carry every tag the scan accesses
      without a guard. */
  predicate Complete(rd: seq<ReadFile>)
  {
    && (rd != [] ==> rd[0].tags.seriesDescription.Some? && rd[0].tags.seriesNumber.Some?)
    && HasInstanceNumbers(rd)
  }

  /** The first missing required tag among the readable files of a directory,
      in enumeration order. */
  function FirstMiss(dicomdir: string, rd: seq<ReadFile>): (miss: Option<ScanError>)
    ensures miss.None? <==> Complete(rd)
    ensures miss.Some? ==> miss.value.dicomdir == dicomdir
  {
    if rd == [] then None
    else
      var init := rd[..|rd| - 1];
      assert forall k | 0 <= k < |init| :: init[k] == rd[k];
      match FirstMiss(dicomdir, init)
      case Some(e) => Some(e)
      case None => MissAt(dicomdir, rd[|rd| - 1], |rd| == 1)
  }

  /** One instance record per readable file, in the same order. */
  function Instances(studyDataDir: string, dicomdir: string, rd: seq<ReadFile>): (inst: seq<InstanceRecord>)
    requires HasInstanceNumbers(rd)
    ensures |inst| == |rd|
  {
    if rd == [] then []
    else
      var f := rd[|rd| - 1];
      var init := rd[..|rd| - 1];
      assert forall k | 0 <= k < |init| :: init[k] == rd[k];
      Instances(studyDataDir, dicomdir, init)
        + [InstanceRecord(f.tags.instanceNumber.value, InstanceFilename(studyDataDir, dicomdir, f.name))]
  }

  /** The series dictionary once the readable files `rd` of a directory have
      been seen: empty before the first one, then the description and number
      of the first one and one instance per readable file. */
  function SeriesSoFar(studyDataDir: string, dicomdir: string, rd: seq<ReadFile>): Option<SeriesRecord>
    requires Complete(rd)
  {
    if rd == [] then None
    else
      var head := rd[0].tags;
      Some(SeriesRecord(head.seriesDescription.value, head.seriesNumber.value, Instances(studyDataDir, dicomdir, rd)))
  }

  /** What scanning one series directory contributes: an abort, no series
      (no file was readable), or the series record built from its readable files. */
  function SeriesOutcome(studyDataDir: string, dicomdir: string, files: seq<DicomFile>): Result<Option<SeriesRecord>>
  {
    var rd := ReadableFiles(files);
    match FirstMiss(dicomdir, rd)
    case Some(e) => Err(e)
    case None => Ok(SeriesSoFar(studyDataDir, dicomdir, rd))
  }

  // ---------------------------------------------------------------------
  // The whole study

  function EntryReadable(e: Entry): seq<ReadFile>
  {
    match e
    case NotEnterable(_) => []
    case SeriesDir(_, files) => ReadableFiles(files)
  }

  function EntryOutcome(studyDataDir: string, e: Entry): Result<Option<SeriesRecord>>
  {
    match e
    case NotEnterable(_) => Ok(None)
    case SeriesDir(dicomdir, files) => SeriesOutcome(studyDataDir, dicomdir, files)
  }

  /** Every readable file of the study, in scan order. */
  function StudyReadable(entries: seq<Entry>): seq<ReadFile>
  {
    if entries == [] then []
    else StudyReadable(entries[..|entries| - 1]) + EntryReadable(entries[|entries| - 1])
  }

  /** The abort of the first entry, in scan order, that aborts. */
  function FirstAbort(studyDataDir: string, entries: seq<Entry>): Option<ScanError>
  {
    if entries == [] then None
    else
      match FirstAbort(studyDataDir, entries[..|entries| - 1])
      case Some(e) => Some(e)
      case None =>
        match EntryOutcome(studyDataDir, entries[|entries| - 1])
        case Err(e) => Some(e)
        case Ok(_) => None
  }

  /** The series an entry appends: one exactly when it was scanned without
      an abort and had a readable file. */
  function EntrySeries(studyDataDir: string, e: Entry): seq<SeriesRecord>
  {
    match EntryOutcome(studyDataDir, e)
    case Ok(Some(s)) => [s]
    case _ => []
  }

  /** The series records of the directories that yielded one, in scan order. */
  function SeriesList(studyDataDir: string, entries: seq<Entry>): seq<SeriesRecord>
  {
    if entries == [] then []
    else
      SeriesList(studyDataDir, entries[..|entries| - 1]) + EntrySeries(studyDataDir, entries[|entries| - 1])
  }

  function StudyDescriptionOf(f: ReadFile): string
  {
    match f.tags.studyDescription
    case Some(d) => d
    case None => NoStudyDescription
  }

  /** The inner study dictionary once the readable files `all` have been seen
      and the series `series` appended: empty until the first readable file,
      whose StudyDescription it then keeps. */
  function StudyState(all: seq<ReadFile>, series: seq<SeriesRecord>): Option<StudyBody>
  {
    if all == [] then None else Some(StudyBody(StudyDescriptionOf(all[0]), series))
  }

  /** The reference definition of the scan's result. */
  function StudyOutcome(studyDataDir: string, entries: seq<Entry>): Result<StudyRecord>
  {
    match FirstAbort(studyDataDir, entries)
    case Some(e) => Err(e)
    case None => Ok(StudyRecord(StudyState(StudyReadable(entries), SeriesList(studyDataDir, entries))))
  }

  // ---------------------------------------------------------------------
  // Lemmas the scan loop needs

  lemma {:induction false} ReadableAppend(a: seq<DicomFile>, b: seq<DicomFile>)
    ensures ReadableFiles(a + b) == ReadableFiles(a) + ReadableFiles(b)
    decreases |b|
  {
    if b == [] {
      AppendEmpty(a, b);
    } else {
      var b' := b[..|b| - 1];
      AppendInit(a, b);
      ReadableAppend(a, b');
      var x := ReadableFiles([b[|b| - 1]]);
      assert [b[|b| - 1]][..0] == [];
      assert ReadableFiles(a + b) == (ReadableFiles(a) + ReadableFiles(b')) + x;
      assert ReadableFiles(b) == ReadableFiles(b') + x;
      AppendAssoc(ReadableFiles(a), ReadableFiles(b'), x);
    }
  }

  lemma {:induction false} FirstMissPrefix(dicomdir: string, a: seq<ReadFile>, b: seq<ReadFile>)
    requires FirstMiss(dicomdir, a).Some?
    ensures FirstMiss(dicomdir, a + b) == FirstMiss(dicomdir, a)
    decreases |b|
  {
    if b != [] {
      var b' := b[..|b| - 1];
      AppendInit(a, b);
      FirstMissPrefix(dicomdir, a, b');
    } else {
      AppendEmpty(a, b);
    }
  }

  lemma {:induction false} FirstAbortPrefix(studyDataDir: string, a: seq<Entry>, b: seq<Entry>)
    requires FirstAbort(studyDataDir, a).Some?
    ensures FirstAbort(studyDataDir, a + b) == FirstAbort(studyDataDir, a)
    decreases |b|
  {
    if b != [] {
      var b' := b[..|b| - 1];
      AppendInit(a, b);
      FirstAbortPrefix(studyDataDir, a, b');
    } else {
      AppendEmpty(a, b);
    }
  }

  lemma ReadableStep(files: seq<DicomFile>, j: nat)
    requires j < |files|
    ensures ReadableFiles(files[..j + 1]) == ReadableFiles(files[..j]) + ReadableFiles([files[j]])
  {
    assert files[..j + 1][..j] == files[..j];
    assert [files[j]][..0] == [];
  }

  lemma MissStep(dicomdir: string, rd: seq<ReadFile>, f: ReadFile)
    ensures FirstMiss(dicomdir, rd + [f])
         == if FirstMiss(dicomdir, rd).Some? then FirstMiss(dicomdir, rd) else MissAt(dicomdir, f, rd == [])
  {
    assert (rd + [f])[..|rd|] == rd;
  }

  /** Reading one more file of a series without a missing tag creates the
      series record from that file if it is the first, and otherwise appends
      one instance to it. */
  lemma SeriesStep(studyDataDir: string, dicomdir: string, rd: seq<ReadFile>, f: ReadFile)
    requires FirstMiss(dicomdir, rd).None? && MissAt(dicomdir, f, rd == []).None?
    ensures FirstMiss(dicomdir, rd + [f]).None?
    ensures
      var info := f.tags;
      var inst := InstanceRecord(info.instanceNumber.value, InstanceFilename(studyDataDir, dicomdir, f.name));
      SeriesSoFar(studyDataDir, dicomdir, rd + [f])
      == if rd == [] then Some(SeriesRecord(info.seriesDescription.value, info.seriesNumber.value, [inst]))
         else
           var s := SeriesSoFar(studyDataDir, dicomdir, rd).value;
           Some(s.(instance := s.instance + [inst]))
  {
    var rd' := rd + [f];
    assert rd'[..|rd|] == rd;
    assert rd'[|rd|] == f;
    var inst := InstanceRecord(f.tags.instanceNumber.value, InstanceFilename(studyDataDir, dicomdir, f.name));
    assert Instances(studyDataDir, dicomdir, rd') == Instances(studyDataDir, dicomdir, rd) + [inst];
    if rd == [] {
      assert rd' == [f];
      assert Instances(studyDataDir, dicomdir, rd') == [inst];
      assert rd'[0].tags == f.tags;
      assert SeriesSoFar(studyDataDir, dicomdir, rd') == Some(SeriesRecord(f.tags.seriesDescription.value, f.tags.seriesNumber.value, [inst]));
    } else {
      assert rd'[0] == rd[0];
      var s := SeriesSoFar(studyDataDir, dicomdir, rd).value;
      assert SeriesSoFar(studyDataDir, dicomdir, rd') == Some(s.(instance := s.instance + [inst]));
    }
  }

  lemma StudyStateStep(all: seq<ReadFile>, f: ReadFile, series: seq<SeriesRecord>)
    requires all != []
    ensures StudyState(all + [f], series) == StudyState(all, series)
  {
  }

  /** Finishing an entry that did not abort extends the readable files and
      the series list by what that entry contributes. */
  lemma EntryStep(studyDataDir: string, entries: seq<Entry>, i: nat)
    requires i < |entries|
    requires FirstAbort(studyDataDir, entries[..i]).None? && EntryOutcome(studyDataDir, entries[i]).Ok?
    ensures FirstAbort(studyDataDir, entries[..i + 1]).None?
    ensures StudyReadable(entries[..i + 1]) == StudyReadable(entries[..i]) + EntryReadable(entries[i])
    ensures SeriesList(studyDataDir, entries[..i + 1])
         == SeriesList(studyDataDir, entries[..i]) + EntrySeries(studyDataDir, entries[i])
  {
    assert entries[..i + 1][..i] == entries[..i];
  }

  /** A missing tag at the j-th file of a directory is the directory's abort. */
  lemma AbortInSeries(dicomdir: string, files: seq<DicomFile>, n: nat, e: ScanError)
    requires n <= |files|
    requires FirstMiss(dicomdir, ReadableFiles(files[..n])) == Some(e)
    ensures FirstMiss(dicomdir, ReadableFiles(files)) == Some(e)
  {
    SplitAt(files, n);
    ReadableAppend(files[..n], files[n..]);
    FirstMissPrefix(dicomdir, ReadableFiles(files[..n]), ReadableFiles(files[n..]));
  }

  // Sequence facts, each stated apart so that the extensionality argument
  // is made in a small context.

  lemma SplitAt<T>(s: seq<T>, n: nat)
    requires n <= |s|
    ensures s == s[..n] + s[n..]
  {
  }

  lemma AppendEmpty<T>(a: seq<T>, b: seq<T>)
    requires b == []
    ensures a + b == a
  {
  }

  lemma AppendAssoc<T>(a: seq<T>, b: seq<T>, c: seq<T>)
    ensures (a + b) + c == a + (b + c)
  {
  }

  lemma AppendInit<T>(a: seq<T>, b: seq<T>)
    requires b != []
    ensures (a + b)[..|a + b| - 1] == a + b[..|b| - 1]
    ensures (a + b)[|a + b| - 1] == b[|b| - 1]
  {
  }

  lemma SplitAround<T>(s: seq<T>, n: nat)
    requires n < |s|
    ensures s == s[..n] + [s[n]] + s[n + 1..]
  {
  }

  lemma UpdateAround<T>(s: seq<T>, n: nat, x: T)
    requires n < |s|
    ensures s[n := x] == s[..n] + [x] + s[n + 1..]
  {
  }

  lemma InsertAt<T>(s: seq<T>, n: nat, x: T)
    requires n <= |s|
    ensures (s[..n] + [x] + s[n..])[..n] == s[..n]
    ensures (s[..n] + [x] + s[n..])[n..] == [x] + s[n..]
  {
  }

  /** An abort in the i-th entry, after earlier entries went through, is the
      result of the whole scan. */
  lemma AbortInEntry(studyDataDir: string, entries: seq<Entry>, i: nat, e: ScanError)
    requires i < |entries|
    requires FirstAbort(studyDataDir, entries[..i]).None?
    requires EntryOutcome(studyDataDir, entries[i]) == Err(e)
    ensures StudyOutcome(studyDataDir, entries) == Err(e)
  {
    assert entries[..i + 1][..i] == entries[..i];
    assert FirstAbort(studyDataDir, entries[..i + 1]) == Some(e);
    SplitAt(entries, i + 1);
    FirstAbortPrefix(studyDataDir, entries[..i + 1], entries[i + 1..]);
  }

  // ---------------------------------------------------------------------
  // The scan

  /** The state the loop over one directory's files carries from file to
      file, once the readable files `rd` of this directory have been seen:
      `before` are the readable files of earlier entries and `series` the
      series appended so far. */
  ghost predicate SeriesInvariant(studyDataDir: string, dicomdir: string,
                                  firstInStudy: bool, study: Option<StudyBody>,
                                  firstInSeries: bool, seriesInfo: Option<SeriesRecord>,
                                  before: seq<ReadFile>, rd: seq<ReadFile>, series: seq<SeriesRecord>)
  {
    && FirstMiss(dicomdir, rd).None?
    && (firstInSeries <==> rd == [])
    && seriesInfo == SeriesSoFar(studyDataDir, dicomdir, rd)
    && (firstInStudy <==> before + rd == [])
    && study == StudyState(before + rd, series)
    && (series != [] ==> before != [])
  }

  /** The body of the loop over one directory's files: read the file, skip
      it if the reader fails, otherwise capture the study description if it
      is the first readable file of the scan, capture the series description
      and number if it is the first of this directory, and append its
      instance record. */
  method ScanFile(studyDataDir: string, dicomdir: string, dicomfile: DicomFile,
                  firstInStudy0: bool, study0: Option<StudyBody>,
                  firstInSeries0: bool, seriesInfo0: Option<SeriesRecord>,
                  ghost before: seq<ReadFile>, ghost rd: seq<ReadFile>, ghost series: seq<SeriesRecord>)
    returns (abort: Option<ScanError>, firstInStudy: bool, study: Option<StudyBody>,
             firstInSeries: bool, seriesInfo: Option<SeriesRecord>)
    requires SeriesInvariant(studyDataDir, dicomdir, firstInStudy0, study0, firstInSeries0, seriesInfo0, before, rd, series)
    ensures abort == FirstMiss(dicomdir, rd + ReadableFiles([dicomfile]))
    ensures abort.None? ==>
      SeriesInvariant(studyDataDir, dicomdir, firstInStudy, study, firstInSeries, seriesInfo,
                      before, rd + ReadableFiles([dicomfile]), series)
  {
    assert [dicomfile][..0] == [];
    abort, firstInStudy, study, firstInSeries, seriesInfo := None, firstInStudy0, study0, firstInSeries0, seriesInfo0;
    match dicomfile.reading
    case Unreadable =>
      assert rd + [] == rd;
    case Readable(info) =>
      ghost var read := ReadFile(dicomfile.name, info);
      assert ReadableFiles([dicomfile]) == [read];
      assert before + (rd + [read]) == (before + rd) + [read];
      MissStep(dicomdir, rd, read);
      if firstInStudy {
        firstInStudy := false;
        var description := match info.studyDescription
          case Some(d) => d
          case None => NoStudyDescription;
        study := Some(StudyBody(description, []));
      } else {
        StudyStateStep(before + rd, read, series);
      }
      if firstInSeries {
        firstInSeries := false;
        if info.seriesDescription.None? {
          abort := Some(MissingTag(SeriesDescription, dicomdir, dicomfile.name));
          return;
        }
        if info.seriesNumber.None? {
          abort := Some(MissingTag(SeriesNumber, dicomdir, dicomfile.name));
          return;
        }
        seriesInfo := Some(SeriesRecord(info.seriesDescription.value, info.seriesNumber.value, []));
      }
      if info.instanceNumber.None? {
        abort := Some(MissingTag(InstanceNumber, dicomdir, dicomfile.name));
        return;
      }
      SeriesStep(studyDataDir, dicomdir, rd, read);
      var instanceInfo := InstanceRecord(info.instanceNumber.value, studyDataDir + "/" + dicomdir + "/" + dicomfile.name);
      seriesInfo := Some(seriesInfo.value.(instance := seriesInfo.value.instance + [instanceInfo]));
  }

  /** The loop over the files of one series directory, `before` being the
      readable files of the earlier entries and `series` the series appended
      so far. */
  method ScanSeries(studyDataDir: string, dicomdir: string, files: seq<DicomFile>,
                    firstInStudy0: bool, study0: Option<StudyBody>,
                    ghost before: seq<ReadFile>, ghost series: seq<SeriesRecord>)
    returns (abort: Option<ScanError>, firstInStudy: bool, study: Option<StudyBody>, seriesInfo: Option<SeriesRecord>)
    requires firstInStudy0 <==> before == []
    requires study0 == StudyState(before, series)
    requires series != [] ==> before != []
    ensures abort == FirstMiss(dicomdir, ReadableFiles(files))
    ensures abort.None? ==>
      && seriesInfo == SeriesSoFar(studyDataDir, dicomdir, ReadableFiles(files))
      && (firstInStudy <==> before + ReadableFiles(files) == [])
      && study == StudyState(before + ReadableFiles(files), series)
  {
    firstInStudy, study := firstInStudy0, study0;
    var firstInSeries := true;
    seriesInfo := None;
    assert files[..0] == [];
    assert before + [] == before;
    for j := 0 to |files|
      invariant SeriesInvariant(studyDataDir, dicomdir, firstInStudy, study, firstInSeries, seriesInfo,
                                before, ReadableFiles(files[..j]), series)
    {
      ReadableStep(files, j);
      abort, firstInStudy, study, firstInSeries, seriesInfo :=
        ScanFile(studyDataDir, dicomdir, files[j], firstInStudy, study, firstInSeries, seriesInfo,
                 before, ReadableFiles(files[..j]), series);
      if abort.Some? {
        AbortInSeries(dicomdir, files, j + 1, abort.value);
        return;
      }
    }
    assert files[..|files|] == files;
    abort := None;
  }

  /** One top-level entry: skip it if it cannot be entered, otherwise scan
      its files and append its series if any of them was readable. */
  method ScanEntry(studyDataDir: string, e: Entry, firstInStudy0: bool, study0: Option<StudyBody>,
                   ghost before: seq<ReadFile>, ghost series: seq<SeriesRecord>)
    returns (abort: Option<ScanError>, firstInStudy: bool, study: Option<StudyBody>)
    requires firstInStudy0 <==> before == []
    requires study0 == StudyState(before, series)
    requires series != [] ==> before != []
    ensures abort == match EntryOutcome(studyDataDir, e) case Err(x) => Some(x) case Ok(_) => None
    ensures abort.None? ==>
      && (firstInStudy <==> before + EntryReadable(e) == [])
      && study == StudyState(before + EntryReadable(e), series + EntrySeries(studyDataDir, e))
  {
    match e
    case NotEnterable(_) =>
      abort, firstInStudy, study := None, firstInStudy0, study0;
      AppendEmpty(before, []);
      AppendEmpty(series, []);
    case SeriesDir(dicomdir, files) =>
      var seriesInfo;
      abort, firstInStudy, study, seriesInfo := ScanSeries(studyDataDir, dicomdir, files, firstInStudy0, study0, before, series);
      if abort.None? {
        if seriesInfo.Some? {
          study := Some(study.value.(series := study.value.series + [seriesInfo.value]));
        } else {
          AppendEmpty(series, []);
        }
      }
  }

  /** The loop over the top-level entries of the study directory. */
  method Scan(studyDataDir: string, entries: seq<Entry>) returns (r: Result<StudyRecord>)
    ensures r == StudyOutcome(studyDataDir, entries)
  {
    var study: Option<StudyBody> := None;
    var firstInStudy := true;
    for i := 0 to |entries|
      invariant FirstAbort(studyDataDir, entries[..i]).None?
      invariant firstInStudy <==> StudyReadable(entries[..i]) == []
      invariant SeriesList(studyDataDir, entries[..i]) != [] ==> StudyReadable(entries[..i]) != []
      invariant study == StudyState(StudyReadable(entries[..i]), SeriesList(studyDataDir, entries[..i]))
    {
      var abort;
      abort, firstInStudy, study := ScanEntry(studyDataDir, entries[i], firstInStudy, study,
                                              StudyReadable(entries[..i]), SeriesList(studyDataDir, entries[..i]));
      if abort.Some? {
        r := Err(abort.value);
        AbortInEntry(studyDataDir, entries, i, r.error);
        return;
      }
      EntryStep(studyDataDir, entries, i);
    }
    assert entries[..|entries|] == entries;
    r := Ok(StudyRecord(study));
  }
}
