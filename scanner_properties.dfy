/** Properties of the scan's result, stated over the reference definition
    `StudyOutcome` that `DicomScanner.Scan` is proved to compute. */
module ScannerProperties {
  import opened DicomScanner

  // ---------------------------------------------------------------------
  // Structure of the reference definition

  lemma {:induction false} StudyReadableAppend(a: seq<Entry>, b: seq<Entry>)
    ensures StudyReadable(a + b) == StudyReadable(a) + StudyReadable(b)
    decreases |b|
  {
    if b == [] {
      AppendEmpty(a, b);
    } else {
      var b', x := b[..|b| - 1], EntryReadable(b[|b| - 1]);
      AppendInit(a, b);
      StudyReadableAppend(a, b');
      assert StudyReadable(a + b) == (StudyReadable(a) + StudyReadable(b')) + x;
      AppendAssoc(StudyReadable(a), StudyReadable(b'), x);
    }
  }

  lemma {:induction false} SeriesListAppend(studyDataDir: string, a: seq<Entry>, b: seq<Entry>)
    ensures SeriesList(studyDataDir, a + b) == SeriesList(studyDataDir, a) + SeriesList(studyDataDir, b)
    decreases |b|
  {
    if b == [] {
      AppendEmpty(a, b);
    } else {
      var b', x := b[..|b| - 1], EntrySeries(studyDataDir, b[|b| - 1]);
      AppendInit(a, b);
      SeriesListAppend(studyDataDir, a, b');
      assert SeriesList(studyDataDir, a + b) == (SeriesList(studyDataDir, a) + SeriesList(studyDataDir, b')) + x;
      AppendAssoc(SeriesList(studyDataDir, a), SeriesList(studyDataDir, b'), x);
    }
  }

  lemma {:induction false} FirstAbortAppend(studyDataDir: string, a: seq<Entry>, b: seq<Entry>)
    ensures FirstAbort(studyDataDir, a + b)
         == if FirstAbort(studyDataDir, a).Some? then FirstAbort(studyDataDir, a) else FirstAbort(studyDataDir, b)
    decreases |b|
  {
    if b == [] {
      AppendEmpty(a, b);
    } else {
      AppendInit(a, b);
      FirstAbortAppend(studyDataDir, a, b[..|b| - 1]);
    }
  }

  /** What a single entry contributes. */
  lemma SingleEntry(studyDataDir: string, e: Entry)
    ensures StudyReadable([e]) == EntryReadable(e)
    ensures SeriesList(studyDataDir, [e]) == EntrySeries(studyDataDir, e)
    ensures FirstAbort(studyDataDir, [e]) == match EntryOutcome(studyDataDir, e) case Err(x) => Some(x) case _ => None
  {
    assert [e][..0] == [];
  }

  /** The directory listing whose files are exactly the given readable ones. */
  function ReadBack(rd: seq<ReadFile>): (files: seq<DicomFile>)
    ensures |files| == |rd|
  {
    if rd == [] then []
    else ReadBack(rd[..|rd| - 1]) + [DicomFile(rd[|rd| - 1].name, Readable(rd[|rd| - 1].tags))]
  }

  /** Reading back a listing of readable files gives those files again. */
  lemma {:induction false} ReadBackRoundTrip(rd: seq<ReadFile>)
    ensures ReadableFiles(ReadBack(rd)) == rd
    decreases |rd|
  {
    if rd != [] {
      var init := rd[..|rd| - 1];
      var files := ReadBack(rd);
      ReadBackRoundTrip(init);
      assert files[..|files| - 1] == ReadBack(init);
      assert rd == init + [rd[|rd| - 1]];
    }
  }

  lemma {:induction false} InstancesAt(studyDataDir: string, dicomdir: string, rd: seq<ReadFile>, k: nat)
    requires HasInstanceNumbers(rd) && k < |rd|
    ensures Instances(studyDataDir, dicomdir, rd)[k]
         == InstanceRecord(rd[k].tags.instanceNumber.value, InstanceFilename(studyDataDir, dicomdir, rd[k].name))
    decreases |rd|
  {
    var init := rd[..|rd| - 1];
    if k < |init| {
      assert init[k] == rd[k];
      InstancesAt(studyDataDir, dicomdir, init, k);
    }
  }

  // ---------------------------------------------------------------------
  // Skipped entries and files

  /** An entry as it stands once skipped things are dropped: nothing for an
      entry that cannot be entered, and a directory holding only its
      readable files otherwise. */
  function Pruned(e: Entry): seq<Entry>
  {
    match e
    case NotEnterable(_) => []
    case SeriesDir(name, files) => [SeriesDir(name, ReadBack(ReadableFiles(files)))]
  }

  /** The entries with every entry that cannot be entered dropped and every
      unreadable file removed from its directory. */
  function Prune(entries: seq<Entry>): seq<Entry>
  {
    if entries == [] then [] else Prune(entries[..|entries| - 1]) + Pruned(entries[|entries| - 1])
  }

  lemma {:induction false} PruneAppend(a: seq<Entry>, b: seq<Entry>)
    ensures Prune(a + b) == Prune(a) + Prune(b)
    decreases |b|
  {
    if b == [] {
      AppendEmpty(a, b);
    } else {
      var b', x := b[..|b| - 1], Pruned(b[|b| - 1]);
      AppendInit(a, b);
      PruneAppend(a, b');
      assert Prune(a + b) == (Prune(a) + Prune(b')) + x;
      AppendAssoc(Prune(a), Prune(b'), x);
    }
  }

  /** A pruned entry contributes what the entry itself contributes. */
  lemma PrunedEntry(studyDataDir: string, e: Entry)
    ensures StudyReadable(Pruned(e)) == EntryReadable(e)
    ensures SeriesList(studyDataDir, Pruned(e)) == EntrySeries(studyDataDir, e)
    ensures FirstAbort(studyDataDir, Pruned(e)) == match EntryOutcome(studyDataDir, e) case Err(x) => Some(x) case _ => None
  {
    match e
    case NotEnterable(_) =>
    case SeriesDir(name, files) =>
      var e' := SeriesDir(name, ReadBack(ReadableFiles(files)));
      ReadBackRoundTrip(ReadableFiles(files));
      assert EntryOutcome(studyDataDir, e') == EntryOutcome(studyDataDir, e);
      SingleEntry(studyDataDir, e');
  }

  lemma {:induction false} PruneKeepsReadable(entries: seq<Entry>)
    ensures StudyReadable(Prune(entries)) == StudyReadable(entries)
    decreases |entries|
  {
    if entries != [] {
      var init, last := entries[..|entries| - 1], entries[|entries| - 1];
      PruneKeepsReadable(init);
      StudyReadableAppend(Prune(init), Pruned(last));
      PrunedEntry("", last);
    }
  }

  lemma {:induction false} PruneKeepsSeries(studyDataDir: string, entries: seq<Entry>)
    ensures SeriesList(studyDataDir, Prune(entries)) == SeriesList(studyDataDir, entries)
    decreases |entries|
  {
    if entries != [] {
      var init, last := entries[..|entries| - 1], entries[|entries| - 1];
      PruneKeepsSeries(studyDataDir, init);
      SeriesListAppend(studyDataDir, Prune(init), Pruned(last));
      PrunedEntry(studyDataDir, last);
    }
  }

  lemma {:induction false} PruneKeepsAbort(studyDataDir: string, entries: seq<Entry>)
    ensures FirstAbort(studyDataDir, Prune(entries)) == FirstAbort(studyDataDir, entries)
    decreases |entries|
  {
    if entries != [] {
      var init, last := entries[..|entries| - 1], entries[|entries| - 1];
      PruneKeepsAbort(studyDataDir, init);
      FirstAbortAppend(studyDataDir, Prune(init), Pruned(last));
      PrunedEntry(studyDataDir, last);
    }
  }

  /** Entries that cannot be entered and files the reader rejects have no
      effect on the result: the scan of the pruned study is the same. */
  lemma ScanIgnoresSkipped(studyDataDir: string, entries: seq<Entry>)
    ensures StudyOutcome(studyDataDir, Prune(entries)) == StudyOutcome(studyDataDir, entries)
  {
    PruneKeepsReadable(entries);
    PruneKeepsSeries(studyDataDir, entries);
    PruneKeepsAbort(studyDataDir, entries);
  }

  /** Adding an unreadable file anywhere in a directory changes nothing. */
  lemma UnreadableFileIgnored(studyDataDir: string, entries: seq<Entry>, k: nat, j: nat, name: string)
    requires k < |entries| && entries[k].SeriesDir? && j <= |entries[k].files|
    ensures
      var files := entries[k].files;
      var bad := DicomFile(name, Unreadable);
      StudyOutcome(studyDataDir, entries[k := SeriesDir(entries[k].name, files[..j] + [bad] + files[j..])])
      == StudyOutcome(studyDataDir, entries)
  {
    var files := entries[k].files;
    var bad := DicomFile(name, Unreadable);
    var files' := files[..j] + [bad] + files[j..];
    var entries' := entries[k := SeriesDir(entries[k].name, files')];
    assert ReadableFiles(files') == ReadableFiles(files) by {
      assert [bad][..0] == [];
      ReadableAppend(files[..j], [bad]);
      ReadableAppend(files[..j] + [bad], files[j..]);
      SplitAt(files, j);
      ReadableAppend(files[..j], files[j..]);
    }
    assert Pruned(entries'[k]) == Pruned(entries[k]);
    SplitAround(entries, k);
    UpdateAround(entries, k, entries'[k]);
    PruneAround(entries, k);
    PruneAround(entries', k);
    ScanIgnoresSkipped(studyDataDir, entries);
    ScanIgnoresSkipped(studyDataDir, entries');
  }

  lemma PruneAround(entries: seq<Entry>, k: nat)
    requires k < |entries|
    ensures Prune(entries) == Prune(entries[..k]) + Pruned(entries[k]) + Prune(entries[k + 1..])
  {
    SplitAround(entries, k);
    PruneAppend(entries[..k] + [entries[k]], entries[k + 1..]);
    PruneAppend(entries[..k], [entries[k]]);
    assert [entries[k]][..0] == [];
  }

  /** Adding an entry that cannot be entered anywhere changes nothing. */
  lemma NotEnterableIgnored(studyDataDir: string, entries: seq<Entry>, k: nat, name: string)
    requires k <= |entries|
    ensures StudyOutcome(studyDataDir, entries[..k] + [NotEnterable(name)] + entries[k..])
         == StudyOutcome(studyDataDir, entries)
  {
    var ne := NotEnterable(name);
    var pre, post := entries[..k], entries[k..];
    var entries' := pre + [ne] + post;
    assert Prune([ne]) == [] by {
      assert [ne][..0] == [];
    }
    PruneAppend(pre + [ne], post);
    PruneAppend(pre, [ne]);
    AppendEmpty(Prune(pre), Prune([ne]));
    SplitAt(entries, k);
    PruneAppend(pre, post);
    ScanIgnoresSkipped(studyDataDir, entries);
    ScanIgnoresSkipped(studyDataDir, entries');
  }

  // ---------------------------------------------------------------------
  // One series

  /** A directory yields a series record exactly when one of its files is
      readable; the record's description and number are those of the first
      readable file, and it holds one instance per readable file, in
      enumeration order, named studyDataDir/dicomdir/dicomfile. */
  lemma SeriesRecordOfDirectory(studyDataDir: string, dicomdir: string, files: seq<DicomFile>)
    requires SeriesOutcome(studyDataDir, dicomdir, files).Ok?
    ensures
      var rd := ReadableFiles(files);
      var series := SeriesOutcome(studyDataDir, dicomdir, files).value;
      && (series.Some? <==> rd != [])
      && (series.Some? ==>
            && series.value.description == rd[0].tags.seriesDescription.value
            && series.value.number == rd[0].tags.seriesNumber.value
            && |series.value.instance| == |rd|
            && forall k | 0 <= k < |rd| ::
                 series.value.instance[k]
                 == InstanceRecord(rd[k].tags.instanceNumber.value, studyDataDir + "/" + dicomdir + "/" + rd[k].name))
  {
    var rd := ReadableFiles(files);
    if rd != [] {
      forall k | 0 <= k < |rd|
        ensures Instances(studyDataDir, dicomdir, rd)[k]
             == InstanceRecord(rd[k].tags.instanceNumber.value, studyDataDir + "/" + dicomdir + "/" + rd[k].name)
      {
        InstancesAt(studyDataDir, dicomdir, rd, k);
      }
    }
  }

  // ---------------------------------------------------------------------
  // The whole study

  lemma StudyReadableAround(entries: seq<Entry>, k: nat)
    requires k < |entries|
    ensures StudyReadable(entries)
         == StudyReadable(entries[..k]) + EntryReadable(entries[k]) + StudyReadable(entries[k + 1..])
  {
    SplitAround(entries, k);
    StudyReadableAppend(entries[..k] + [entries[k]], entries[k + 1..]);
    StudyReadableAppend(entries[..k], [entries[k]]);
    SingleEntry("", entries[k]);
  }

  lemma {:induction false} AllEmptyReadable(entries: seq<Entry>)
    requires forall k | 0 <= k < |entries| :: EntryReadable(entries[k]) == []
    ensures StudyReadable(entries) == []
    decreases |entries|
  {
    if entries != [] {
      var init := entries[..|entries| - 1];
      forall k | 0 <= k < |init|
        ensures EntryReadable(init[k]) == []
      {
        assert init[k] == entries[k];
      }
      AllEmptyReadable(init);
    }
  }

  lemma StudyReadableEmpty(entries: seq<Entry>)
    ensures StudyReadable(entries) == [] <==> forall k | 0 <= k < |entries| :: EntryReadable(entries[k]) == []
  {
    if StudyReadable(entries) == [] {
      forall k | 0 <= k < |entries|
        ensures EntryReadable(entries[k]) == []
      {
        StudyReadableAround(entries, k);
      }
    } else if forall k | 0 <= k < |entries| :: EntryReadable(entries[k]) == [] {
      AllEmptyReadable(entries);
    }
  }

  lemma {:induction false} FirstAbortExists(studyDataDir: string, entries: seq<Entry>)
    ensures FirstAbort(studyDataDir, entries).Some?
        <==> exists k | 0 <= k < |entries| :: EntryOutcome(studyDataDir, entries[k]).Err?
    decreases |entries|
  {
    if entries != [] {
      var init := entries[..|entries| - 1];
      FirstAbortExists(studyDataDir, init);
      assert forall k | 0 <= k < |init| :: init[k] == entries[k];
      if FirstAbort(studyDataDir, entries).None? {
        forall k | 0 <= k < |entries|
          ensures EntryOutcome(studyDataDir, entries[k]).Ok?
        {
          if k < |init| {
            assert entries[k] == init[k];
          }
        }
      }
    }
  }

  /** With readable files in no directory the study dictionary stays empty,
      and only then: the result is `{'study': {}}`. */
  lemma EmptyStudyIff(studyDataDir: string, entries: seq<Entry>)
    ensures StudyOutcome(studyDataDir, entries) == Ok(StudyRecord(None))
        <==> forall k | 0 <= k < |entries| :: EntryReadable(entries[k]) == []
  {
    StudyReadableEmpty(entries);
    FirstAbortExists(studyDataDir, entries);
    if forall k | 0 <= k < |entries| :: EntryReadable(entries[k]) == [] {
      forall k | 0 <= k < |entries|
        ensures EntryOutcome(studyDataDir, entries[k]).Ok?
      {
        assert EntryReadable(entries[k]) == [];
      }
    }
  }

  /** A series is only ever appended after the first readable file has
      created the study's series list. */
  lemma {:induction false} SeriesNeedStudyKey(studyDataDir: string, entries: seq<Entry>)
    ensures SeriesList(studyDataDir, entries) != [] ==> StudyReadable(entries) != []
    decreases |entries|
  {
    if entries != [] {
      var init := entries[..|entries| - 1];
      SeriesNeedStudyKey(studyDataDir, init);
      if SeriesList(studyDataDir, init) == [] && SeriesList(studyDataDir, entries) != [] {
        assert SeriesList(studyDataDir, entries) == [] + SeriesList(studyDataDir, entries);
        assert EntryReadable(entries[|entries| - 1]) != [];
      }
    }
  }

  lemma StudyReadableHead(entries: seq<Entry>)
    requires entries != []
    ensures StudyReadable(entries) == EntryReadable(entries[0]) + StudyReadable(entries[1..])
  {
    SplitAt(entries, 1);
    assert entries[..1] == [entries[0]];
    StudyReadableAppend([entries[0]], entries[1..]);
    SingleEntry("", entries[0]);
  }

  /** The readable files of the study start with those of the first entry
      that has any. */
  lemma StudyReadableFrom(entries: seq<Entry>, k: nat)
    requires k < |entries|
    requires forall i | 0 <= i < k :: EntryReadable(entries[i]) == []
    ensures StudyReadable(entries) == EntryReadable(entries[k]) + StudyReadable(entries[k + 1..])
  {
    var pre := entries[..k];
    assert forall i | 0 <= i < |pre| :: pre[i] == entries[i];
    StudyReadableEmpty(pre);
    SplitAt(entries, k);
    StudyReadableAppend(pre, entries[k..]);
    StudyReadableHead(entries[k..]);
    assert entries[k..][1..] == entries[k + 1..];
  }

  /** The study description is that of the first readable file of the
      whole scan, the k-th entry being the first directory with one, or
      "NoStudyDescription" when that file lacks the tag. */
  lemma StudyDescriptionFromFirstReadable(studyDataDir: string, entries: seq<Entry>, k: nat)
    requires k < |entries| && EntryReadable(entries[k]) != []
    requires forall i | 0 <= i < k :: EntryReadable(entries[i]) == []
    requires StudyOutcome(studyDataDir, entries).Ok?
    ensures StudyOutcome(studyDataDir, entries).value.study.Some?
    ensures
      var tags := EntryReadable(entries[k])[0].tags;
      StudyOutcome(studyDataDir, entries).value.study.value.description
      == if tags.studyDescription.Some? then tags.studyDescription.value else "NoStudyDescription"
  {
    StudyReadableFrom(entries, k);
    var all := StudyReadable(entries);
    assert all[0] == EntryReadable(entries[k])[0];
  }

  /** The number of directories with at least one readable file. */
  function NonEmptyDirs(entries: seq<Entry>): nat
  {
    if entries == [] then 0
    else NonEmptyDirs(entries[..|entries| - 1]) + if EntryReadable(entries[|entries| - 1]) != [] then 1 else 0
  }

  lemma {:induction false} SeriesListCount(studyDataDir: string, entries: seq<Entry>)
    requires FirstAbort(studyDataDir, entries).None?
    ensures |SeriesList(studyDataDir, entries)| == NonEmptyDirs(entries)
    decreases |entries|
  {
    if entries != [] {
      var init := entries[..|entries| - 1];
      SeriesListCount(studyDataDir, init);
      match entries[|entries| - 1]
      case NotEnterable(_) =>
      case SeriesDir(dicomdir, files) =>
        SeriesRecordOfDirectory(studyDataDir, dicomdir, files);
    }
  }

  /** A run that does not abort appends exactly one series per directory
      with at least one readable file. */
  lemma SeriesCount(studyDataDir: string, entries: seq<Entry>)
    requires StudyOutcome(studyDataDir, entries).Ok?
    ensures match StudyOutcome(studyDataDir, entries).value.study
      case Some(body) => |body.series| == NonEmptyDirs(entries)
      case None => NonEmptyDirs(entries) == 0
  {
    SeriesListCount(studyDataDir, entries);
    SeriesNeedStudyKey(studyDataDir, entries);
  }

  /** The tags the scan accesses without a guard that a directory lacks:
      SeriesDescription or SeriesNumber on its first readable file, or
      InstanceNumber on any readable file. */
  predicate MissesRequiredTag(e: Entry)
  {
    && e.SeriesDir?
    && var rd := ReadableFiles(e.files);
       || (rd != [] && (rd[0].tags.seriesDescription.None? || rd[0].tags.seriesNumber.None?))
       || exists i | 0 <= i < |rd| :: rd[i].tags.instanceNumber.None?
  }

  /** The run aborts exactly when some directory misses a required tag. */
  lemma AbortIff(studyDataDir: string, entries: seq<Entry>)
    ensures StudyOutcome(studyDataDir, entries).Err? <==> exists k | 0 <= k < |entries| :: MissesRequiredTag(entries[k])
  {
    FirstAbortExists(studyDataDir, entries);
    forall k | 0 <= k < |entries|
      ensures EntryOutcome(studyDataDir, entries[k]).Err? <==> MissesRequiredTag(entries[k])
    {
      EntryAbortIff(studyDataDir, entries[k]);
    }
  }

  lemma EntryAbortIff(studyDataDir: string, e: Entry)
    ensures EntryOutcome(studyDataDir, e).Err? <==> MissesRequiredTag(e)
  {
  }

  /** The data set lacks the given tag. */
  predicate TagAbsent(tags: Tags, tag: RequiredTag)
  {
    match tag
    case SeriesDescription => tags.seriesDescription.None?
    case SeriesNumber => tags.seriesNumber.None?
    case InstanceNumber => tags.instanceNumber.None?
  }

  /** The abort of a directory names a readable file that lacks the reported
      tag; every readable file before it has all the tags the scan needs;
      and only the first readable file can trip over SeriesDescription or
      SeriesNumber, which are read before InstanceNumber. */
  lemma {:induction false} FirstMissNamesFile(dicomdir: string, rd: seq<ReadFile>)
    requires FirstMiss(dicomdir, rd).Some?
    ensures
      var e := FirstMiss(dicomdir, rd).value;
      exists i | 0 <= i < |rd| ::
        && rd[i].name == e.dicomfile
        && TagAbsent(rd[i].tags, e.tag)
        && (e.tag == SeriesNumber ==> rd[i].tags.seriesDescription.Some?)
        && (e.tag != InstanceNumber ==> i == 0)
        && Complete(rd[..i])
    decreases |rd|
  {
    var init := rd[..|rd| - 1];
    var e := FirstMiss(dicomdir, rd).value;
    if FirstMiss(dicomdir, init).Some? {
      FirstMissNamesFile(dicomdir, init);
      var i :| 0 <= i < |init| && init[i].name == e.dicomfile && TagAbsent(init[i].tags, e.tag)
        && (e.tag == SeriesNumber ==> init[i].tags.seriesDescription.Some?)
        && (e.tag != InstanceNumber ==> i == 0) && Complete(init[..i]);
      assert rd[i] == init[i];
      assert rd[..i] == init[..i];
    } else {
      var i := |rd| - 1;
      assert rd[..i] == init;
      assert rd[i].name == e.dicomfile && TagAbsent(rd[i].tags, e.tag);
    }
  }

  /** An aborted scan stops at a series directory: the one named in the
      error, the first in scan order whose own scan aborts, with that abort. */
  lemma {:induction false} AbortNamesDirectory(studyDataDir: string, entries: seq<Entry>)
    requires FirstAbort(studyDataDir, entries).Some?
    ensures
      var e := FirstAbort(studyDataDir, entries).value;
      exists k | 0 <= k < |entries| ::
        && entries[k].SeriesDir?
        && entries[k].name == e.dicomdir
        && FirstMiss(e.dicomdir, ReadableFiles(entries[k].files)) == Some(e)
        && FirstAbort(studyDataDir, entries[..k]).None?
    decreases |entries|
  {
    var init := entries[..|entries| - 1];
    var e := FirstAbort(studyDataDir, entries).value;
    if FirstAbort(studyDataDir, init).Some? {
      AbortNamesDirectory(studyDataDir, init);
      var k :| 0 <= k < |init| && init[k].SeriesDir? && init[k].name == e.dicomdir
        && FirstMiss(e.dicomdir, ReadableFiles(init[k].files)) == Some(e)
        && FirstAbort(studyDataDir, init[..k]).None?;
      assert entries[k] == init[k];
      assert entries[..k] == init[..k];
    } else {
      var k := |entries| - 1;
      assert entries[..k] == init;
    }
  }

  /** An aborted scan reports a missing tag of a readable file of a
      directory of the study. */
  lemma AbortNamesFile(studyDataDir: string, entries: seq<Entry>)
    requires StudyOutcome(studyDataDir, entries).Err?
    ensures
      var e := StudyOutcome(studyDataDir, entries).error;
      exists k | 0 <= k < |entries| ::
        && entries[k].SeriesDir?
        && entries[k].name == e.dicomdir
        && exists i | 0 <= i < |ReadableFiles(entries[k].files)| ::
             && ReadableFiles(entries[k].files)[i].name == e.dicomfile
             && TagAbsent(ReadableFiles(entries[k].files)[i].tags, e.tag)
  {
    var e := StudyOutcome(studyDataDir, entries).error;
    AbortNamesDirectory(studyDataDir, entries);
    var k :| 0 <= k < |entries| && entries[k].SeriesDir? && entries[k].name == e.dicomdir
      && FirstMiss(e.dicomdir, ReadableFiles(entries[k].files)) == Some(e)
      && FirstAbort(studyDataDir, entries[..k]).None?;
    FirstMissNamesFile(e.dicomdir, ReadableFiles(entries[k].files));
  }

  // ---------------------------------------------------------------------
  // A worked scenario

  const F1 := DicomFile("f1", Readable(Tags(Some("Head"), Some("T1"), Some(IntValue(1)), Some(IntValue(1)))))
  const F2 := DicomFile("f2", Readable(Tags(None, Some("T1"), Some(IntValue(1)), Some(IntValue(2)))))
  const Bad := DicomFile("x", Unreadable)

  lemma FilenameExample()
    ensures InstanceFilename("study", "seriesA", "f1") == "study/seriesA/f1"
    ensures InstanceFilename("study", "seriesA", "f2") == "study/seriesA/f2"
  {
  }

  lemma ReadableExample()
    ensures ReadableFiles([F1, F2]) == [ReadFile("f1", F1.reading.tags), ReadFile("f2", F2.reading.tags)]
    ensures ReadableFiles([Bad]) == []
  {
    assert [F1, F2][..1] == [F1];
    assert [F1][..0] == [] && [Bad][..0] == [];
  }

  /** The series the first directory of the scenario yields. */
  const SeriesA := SeriesRecord("T1", IntValue(1), [
    InstanceRecord(IntValue(1), "study/seriesA/f1"),
    InstanceRecord(IntValue(2), "study/seriesA/f2")])

  lemma SeriesAExample()
    ensures SeriesOutcome("study", "seriesA", [F1, F2]) == Ok(Some(SeriesA))
  {
    var r1, r2 := ReadFile("f1", F1.reading.tags), ReadFile("f2", F2.reading.tags);
    ReadableExample();
    FilenameExample();
    assert [r1, r2][..1] == [r1];
    assert [r1][..0] == [];
    assert FirstMiss("study", [r1, r2]) == None;
    var i1 := InstanceRecord(IntValue(1), InstanceFilename("study", "seriesA", "f1"));
    var i2 := InstanceRecord(IntValue(2), InstanceFilename("study", "seriesA", "f2"));
    assert Instances("study", "seriesA", [r1]) == [i1];
    assert Instances("study", "seriesA", [r1, r2]) == Instances("study", "seriesA", [r1]) + [i2];
    assert [i1] + [i2] == [i1, i2];
    assert r1.tags.seriesDescription == Some("T1") && r1.tags.seriesNumber == Some(IntValue(1));
    assert SeriesSoFar("study", "seriesA", [r1, r2])
        == Some(SeriesRecord("T1", IntValue(1), Instances("study", "seriesA", [r1, r2])));
    assert SeriesOutcome("study", "seriesA", [F1, F2]) == Ok(SeriesSoFar("study", "seriesA", [r1, r2]));
  }

  lemma SeriesBExample()
    ensures SeriesOutcome("study", "seriesB", [Bad]) == Ok(None)
  {
    ReadableExample();
  }

  lemma ScenarioReadable()
    ensures StudyReadable([SeriesDir("seriesA", [F1, F2]), SeriesDir("seriesB", [Bad])]) == ReadableFiles([F1, F2])
  {
    var a, b := SeriesDir("seriesA", [F1, F2]), SeriesDir("seriesB", [Bad]);
    ReadableExample();
    SingleEntry("study", a);
    assert [a, b][..1] == [a];
  }

  lemma ScenarioNoAbort()
    ensures FirstAbort("study", [SeriesDir("seriesA", [F1, F2]), SeriesDir("seriesB", [Bad])]) == None
  {
    var a, b := SeriesDir("seriesA", [F1, F2]), SeriesDir("seriesB", [Bad]);
    SeriesAExample();
    SeriesBExample();
    SingleEntry("study", a);
    assert [a, b][..1] == [a];
  }

  lemma ScenarioSeries()
    ensures SeriesList("study", [SeriesDir("seriesA", [F1, F2]), SeriesDir("seriesB", [Bad])]) == [SeriesA]
  {
    var a, b := SeriesDir("seriesA", [F1, F2]), SeriesDir("seriesB", [Bad]);
    SeriesAExample();
    SeriesBExample();
    SingleEntry("study", a);
    assert [a, b][..1] == [a];
  }

  /** A study with a directory of two valid files and a directory whose only
      file cannot be read: one series with two instances, and nothing for
      the second directory. */
  lemma TwoDirectoriesScenario()
    ensures StudyOutcome("study", [SeriesDir("seriesA", [F1, F2]), SeriesDir("seriesB", [Bad])])
         == Ok(StudyRecord(Some(StudyBody("Head", [SeriesA]))))
  {
    ScenarioReadable();
    ScenarioNoAbort();
    ScenarioSeries();
    ReadableExample();
  }
}
