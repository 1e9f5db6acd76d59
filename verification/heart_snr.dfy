/** The bookkeeping of compute_SNR_heart.py: for every subject, stimulation
    condition and (for SSP) projector count, the script reads one cleaned
    recording, obtains one heart-artefact SNR value for it and stores that
    value in the subjects x 1 (or subjects x 16) table of its condition; at the
    end of a processing stage both tables are written under an output file
    name chosen by two flags.

    The SNR computation itself (epoching, averaging, peak over baseline
    standard deviation) happens outside this model: it is the parameter
    `measure`, applied to the recording's input path and to the reference
    choice made for it. */
module HeartSnr {
  import opened Wrappers
  import opened Text

  /** One SNR value as stored in a result table; None stands for NaN. */
  type Snr = Option<real>

  // ---------------------------------------------------------------------
  // Constants of the script
  // ---------------------------------------------------------------------

  /** `subjects = np.arange(1, 37)`: subjects 1..36. */
  const FirstSubject: nat := 1
  const SubjectCount: nat := 36
  /** `np.arange(5, 21)`: the SSP projector counts tried, 5..20. */
  const FirstProjectors: nat := 5
  const LastProjectors: nat := 20
  const ProjectorColumns: nat := 16
  const SamplingRate: nat := 1000

  datatype Condition = Median | Tibial

  /** `cond_names`, in the order the script visits them. */
  const Conditions: seq<Condition> := [Median, Tibial]
  const CondNames: seq<string> := ["median", "tibial"]

  function ConditionName(c: Condition): (name: string)
    ensures name in CondNames
  {
    match c
    case Median => "median"
    case Tibial => "tibial"
  }

  /** The condition a name in `cond_names` denotes. */
  function ConditionOf(name: string): (c: Option<Condition>)
    ensures c.Some? <==> name in CondNames
    ensures c.Some? ==> ConditionName(c.value) == name
  {
    if name == "median" then Some(Median) else if name == "tibial" then Some(Tibial) else None
  }

  lemma ConditionNameRoundTrip(c: Condition)
    ensures ConditionOf(ConditionName(c)) == Some(c)
  {
  }

  // ---------------------------------------------------------------------
  // Condition -> nerve -> reference channel
  // ---------------------------------------------------------------------

  /** The nerve number the script derives from a condition name: 2 for
      tibial, 1 for median; any other name leaves it unset. */
  function NerveOf(condName: string): (nerve: Option<nat>)
    ensures nerve.Some? <==> condName in CondNames
    ensures nerve.Some? ==> nerve.value == 1 || nerve.value == 2
  {
    if condName == "tibial" then Some(2)
    else if condName == "median" then Some(1)
    else None
  }

  /** How a raw or PCA-cleaned recording is re-referenced before its SNR is
      measured. */
  datatype Reference =
    | Anterior(channel: string)        // re-referenced to an anterior channel
    | AddedReference(channel: string)  // reference channel added in place
    | Unchanged                        // left as read

  /** With `ant_ref`, nerve 1 is re-referenced to AC and nerve 2 to AL;
      without it the TH6 reference channel is added. */
  function ReferenceFor(antRef: bool, nerve: Option<nat>): (r: Reference)
    ensures antRef <==> !r.AddedReference?
  {
    if antRef then
      if nerve == Some(1) then Anterior("AC")
      else if nerve == Some(2) then Anterior("AL")
      else Unchanged
    else AddedReference("TH6")
  }

  /** The condition determines the nerve and the nerve the anterior channel:
      median goes with nerve 1 and AC, tibial with nerve 2 and AL, and the two
      conditions never share a nerve or an anterior channel. */
  lemma NerveAndReferenceByCondition(c: Condition)
    ensures NerveOf(ConditionName(c)) == Some(if c == Median then 1 else 2)
    ensures ReferenceFor(true, NerveOf(ConditionName(c)))
            == Anterior(if c == Median then "AC" else "AL")
    ensures ReferenceFor(false, NerveOf(ConditionName(c))) == AddedReference("TH6")
  {
  }

  // ---------------------------------------------------------------------
  // Subject identifiers
  // ---------------------------------------------------------------------

  /** `f'sub-{str(subject).zfill(3)}'` */
  function SubjectId(subject: nat): (id: string)
    ensures |id| >= 7 && id[..4] == "sub-"
  {
    "sub-" + ZFill(DecimalString(subject), 3)
  }

  /** Reads a subject identifier back: "sub-" followed by decimal digits. */
  function ParseSubjectId(id: string): (subject: Option<nat>)
    ensures subject.Some? ==> |id| > 4 && id[..4] == "sub-"
  {
    if |id| > 4 && id[..4] == "sub-" && AllDigits(id[4..]) then Some(DigitsValue(id[4..]))
    else None
  }

  lemma SubjectIdDigits(subject: nat)
    ensures AllDigits(SubjectId(subject)[4..])
    ensures DigitsValue(SubjectId(subject)[4..]) == subject
  {
    var id := SubjectId(subject);
    assert id[4..] == ZFill(DecimalString(subject), 3);
    ZFillDigits(DecimalString(subject), 3);
    DecimalRoundTrip(subject);
  }

  /** The identifier determines the subject, so no two subjects share an
      input directory. */
  lemma SubjectIdRoundTrip(subject: nat)
    ensures ParseSubjectId(SubjectId(subject)) == Some(subject)
  {
    SubjectIdDigits(subject);
  }

  /** For subjects below 1000 the identifier is "sub-" and exactly three
      digits; for the study's subjects 1..36 the first of them is '0'. */
  lemma SubjectIdWidth(subject: nat)
    requires subject < 1000
    ensures |SubjectId(subject)| == 7
    ensures subject < 100 ==> SubjectId(subject)[4] == '0'
  {
    DecimalLength(subject, 3);
    if subject < 100 {
      DecimalLength(subject, 2);
      var d := DecimalString(subject);
      assert ZFill(d, 3) == Zeros(3 - |d|) + d;
      assert SubjectId(subject)[4] == ZFill(d, 3)[0];
    }
  }

  lemma SubjectIdHasNoCapitalR(subject: nat)
    ensures 'R' !in SubjectId(subject)
  {
    var id := SubjectId(subject);
    SubjectIdDigits(subject);
    assert id == id[..4] + id[4..];
    assert forall i | 0 <= i < |id[4..]| :: id[4..][i] != 'R';
  }

  // ---------------------------------------------------------------------
  // Stages and file names
  // ---------------------------------------------------------------------

  /** The processing stages: prepared (raw), PCA, PCA followed by ICA,
      ICA alone, and SSP with 5..20 projectors. */
  datatype Stage = Prepared | Pca | PostIca | Ica | Ssp

  function StageDir(stage: Stage): (dir: string)
    ensures |dir| > 0 && dir[|dir| - 1] == '/'
  {
    match stage
    case Prepared => "/data/pt_02569/tmp_data/prepared_py/"
    case Pca => "/data/pt_02569/tmp_data/ecg_rm_py/"
    case PostIca => "/data/pt_02569/tmp_data/ica_py/"
    case Ica => "/data/pt_02569/tmp_data/baseline_ica_py/"
    case Ssp => "/data/p_02569/SSP/"
  }

  /** The number of columns of a stage's tables. */
  function Columns(stage: Stage): (n: nat)
    ensures n >= 1
  {
    if stage == Ssp then ProjectorColumns else 1
  }

  /** The directory a stage reads a subject's recordings from (SSP: one
      directory per projector count, `str(n) + " projections/"`). */
  function RecordingDir(stage: Stage, subjectId: string, projectors: nat): string
  {
    if stage == Ssp then StageDir(stage) + subjectId + "/" + DecimalString(projectors) + " projections/"
    else StageDir(stage) + subjectId + "/esg/prepro/"
  }

  /** The recording's file name for one condition. Only the ICA, post-ICA
      and SSP names depend on `ant_ref`; prepared and PCA data are
      re-referenced after reading instead. */
  function RecordingName(stage: Stage, condName: string, antRef: bool): string
  {
    match stage
    case Prepared => "noStimart_sr" + DecimalString(SamplingRate) + "_" + condName + "_withqrs.fif"
    case Pca => "data_clean_ecg_spinal_" + condName + "_withqrs.fif"
    case PostIca => "clean_ica_auto_" + (if antRef then "antRef_" else "") + condName + ".fif"
    case Ica => "clean_baseline_ica_auto_" + (if antRef then "antRef_" else "") + condName + ".fif"
    case Ssp => "ssp_cleaned_" + condName + (if antRef then "_antRef" else "") + ".fif"
  }

  /** The recording a stage reads for one subject, condition and (SSP only)
      projector count. */
  function InputPath(stage: Stage, subjectId: string, condName: string, projectors: nat,
                     antRef: bool): string
  {
    RecordingDir(stage, subjectId, projectors) + RecordingName(stage, condName, antRef)
  }

  lemma PrefixOfConcat(a: string, b: string, k: nat)
    requires k <= |a|
    ensures (a + b)[..k] == a[..k]
  {
  }

  lemma SuffixOfConcat(a: string, b: string, k: nat)
    requires k <= |b|
    ensures (a + b)[|a + b| - k..] == b[|b| - k..]
  {
  }

  lemma RecordingDirInStageDir(stage: Stage, subjectId: string, projectors: nat)
    ensures var dir := RecordingDir(stage, subjectId, projectors);
      |StageDir(stage)| < |dir| && dir[..|StageDir(stage)|] == StageDir(stage)
  {
    var rest := if stage == Ssp then subjectId + "/" + DecimalString(projectors) + " projections/"
                else subjectId + "/esg/prepro/";
    assert RecordingDir(stage, subjectId, projectors) == StageDir(stage) + rest;
    PrefixOfConcat(StageDir(stage), rest, |StageDir(stage)|);
  }

  lemma FifName(body: string)
    ensures var name := body + ".fif";
      |name| >= 4 && name[|name| - 4..] == ".fif"
  {
    SuffixOfConcat(body, ".fif", 4);
  }

  lemma RecordingNameIsFif(stage: Stage, condName: string, antRef: bool)
    ensures var name := RecordingName(stage, condName, antRef);
      |name| > 4 && name[|name| - 4..] == ".fif"
  {
    match stage
    case Prepared =>
      var body := "noStimart_sr" + DecimalString(SamplingRate) + "_" + condName + "_withqrs";
      assert RecordingName(stage, condName, antRef) == body + ".fif";
      FifName(body);
    case Pca =>
      var body := "data_clean_ecg_spinal_" + condName + "_withqrs";
      assert RecordingName(stage, condName, antRef) == body + ".fif";
      FifName(body);
    case PostIca =>
      var body := "clean_ica_auto_" + (if antRef then "antRef_" else "") + condName;
      assert RecordingName(stage, condName, antRef) == body + ".fif";
      FifName(body);
    case Ica =>
      var body := "clean_baseline_ica_auto_" + (if antRef then "antRef_" else "") + condName;
      assert RecordingName(stage, condName, antRef) == body + ".fif";
      FifName(body);
    case Ssp =>
      var body := "ssp_cleaned_" + condName + (if antRef then "_antRef" else "");
      assert RecordingName(stage, condName, antRef) == body + ".fif";
      FifName(body);
  }

  /** Every recording a stage reads is a FIF file inside that stage's
      directory. */
  lemma InputPathInStageDir(stage: Stage, subjectId: string, condName: string, projectors: nat, antRef: bool)
    ensures var path := InputPath(stage, subjectId, condName, projectors, antRef);
      && |StageDir(stage)| < |path| && path[..|StageDir(stage)|] == StageDir(stage)
      && path[|path| - 4..] == ".fif"
  {
    var dir := RecordingDir(stage, subjectId, projectors);
    var name := RecordingName(stage, condName, antRef);
    var path := InputPath(stage, subjectId, condName, projectors, antRef);
    assert path == dir + name;
    assert |StageDir(stage)| < |path| && path[..|StageDir(stage)|] == StageDir(stage) by {
      RecordingDirInStageDir(stage, subjectId, projectors);
      PrefixOfConcat(dir, name, |StageDir(stage)|);
    }
    assert path[|path| - 4..] == ".fif" by {
      RecordingNameIsFif(stage, condName, antRef);
      SuffixOfConcat(dir, name, 4);
    }
  }

  /** The reference choice applied before measuring: only the prepared and
      PCA stages re-reference. */
  function StageReference(stage: Stage, antRef: bool, condName: string): (r: Reference)
    ensures stage != Prepared && stage != Pca ==> r == Unchanged
  {
    if stage == Prepared || stage == Pca then ReferenceFor(antRef, NerveOf(condName)) else Unchanged
  }

  lemma DigitsHaveNoCapitalR(s: string)
    requires AllDigits(s)
    ensures 'R' !in s
  {
    assert forall i | 0 <= i < |s| :: s[i] != 'R';
  }

  lemma StageDirHasNoCapitalR(stage: Stage)
    ensures 'R' !in StageDir(stage)
  {
  }

  /** No piece of a recording directory holds a capital R. */
  lemma RecordingDirHasNoCapitalR(stage: Stage, subjectId: string, projectors: nat)
    requires 'R' !in subjectId
    ensures 'R' !in RecordingDir(stage, subjectId, projectors)
  {
    DigitsHaveNoCapitalR(DecimalString(projectors));
    StageDirHasNoCapitalR(stage);
    assert 'R' !in "/esg/prepro/" && 'R' !in "/" && 'R' !in " projections/";
  }

  /** Without the tag, no piece of a recording name holds a capital R. */
  lemma RecordingNameWithoutTag(stage: Stage, condName: string, antRef: bool)
    requires 'R' !in condName
    requires !antRef || stage == Prepared || stage == Pca
    ensures 'R' !in RecordingName(stage, condName, antRef)
  {
    match stage
    case Prepared =>
      DigitsHaveNoCapitalR(DecimalString(SamplingRate));
      assert 'R' !in "noStimart_sr" && 'R' !in "_" && 'R' !in "_withqrs.fif";
    case Pca =>
      assert 'R' !in "data_clean_ecg_spinal_" && 'R' !in "_withqrs.fif";
    case PostIca =>
      assert 'R' !in "clean_ica_auto_" && 'R' !in "" && 'R' !in ".fif";
    case Ica =>
      assert 'R' !in "clean_baseline_ica_auto_" && 'R' !in "" && 'R' !in ".fif";
    case Ssp =>
      assert 'R' !in "ssp_cleaned_" && 'R' !in "" && 'R' !in ".fif";
  }

  /** With the tag, the ICA, post-ICA and SSP recording names spell out
      `antRef`. */
  lemma RecordingNameWithTag(stage: Stage, condName: string)
    requires stage != Prepared && stage != Pca
    ensures Occurs("antRef", RecordingName(stage, condName, true))
  {
    var name := RecordingName(stage, condName, true);
    match stage
    case PostIca =>
      assert name == "clean_ica_auto_" + "antRef" + ("_" + condName + ".fif");
      OccursInside("clean_ica_auto_", "antRef", "_" + condName + ".fif");
    case Ica =>
      assert name == "clean_baseline_ica_auto_" + "antRef" + ("_" + condName + ".fif");
      OccursInside("clean_baseline_ica_auto_", "antRef", "_" + condName + ".fif");
    case Ssp =>
      assert name == "ssp_cleaned_" + condName + "_" + "antRef" + ".fif";
      OccursInside("ssp_cleaned_" + condName + "_", "antRef", ".fif");
  }

  /** The ICA, post-ICA and SSP input names carry `antRef` exactly when the
      flag is set; the prepared and PCA names never do. */
  lemma InputPathAntRefTag(stage: Stage, subject: nat, c: Condition, projectors: nat, antRef: bool)
    ensures Occurs("antRef", InputPath(stage, SubjectId(subject), ConditionName(c), projectors, antRef))
            <==> antRef && stage != Prepared && stage != Pca
  {
    var dir := RecordingDir(stage, SubjectId(subject), projectors);
    var name := RecordingName(stage, ConditionName(c), antRef);
    if antRef && stage != Prepared && stage != Pca {
      RecordingNameWithTag(stage, ConditionName(c));
      OccursInPrefixed(dir, "antRef", name);
    } else {
      SubjectIdHasNoCapitalR(subject);
      assert 'R' !in ConditionName(c);
      RecordingDirHasNoCapitalR(stage, SubjectId(subject), projectors);
      RecordingNameWithoutTag(stage, ConditionName(c), antRef);
      AbsentChar("antRef", dir + name, 'R');
    }
  }

  /** `fn`: the stage directory followed by one of four names chosen by
      `reduced_window` and `ant_ref`. */
  function OutputFile(stage: Stage, reducedWindow: bool, antRef: bool): string
  {
    if reducedWindow then
      if antRef then StageDir(stage) + "snr_heart_ant_smallwin.h5"
      else StageDir(stage) + "snr_heart_smallwin.h5"
    else
      if antRef then StageDir(stage) + "snr_heart_ant.h5"
      else StageDir(stage) + "snr_heart.h5"
  }

  /** A name `base.h5` put in a directory lies in that directory and ends
      in `.h5`. */
  lemma HdfFileInDir(dir: string, base: string)
    ensures var fn := dir + base + ".h5";
      |dir| < |fn| && fn[..|dir|] == dir && fn[|fn| - 3..] == ".h5"
  {
    var fn := dir + base + ".h5";
    assert fn == dir + (base + ".h5");
    PrefixOfConcat(dir, base + ".h5", |dir|);
    SuffixOfConcat(dir + base, ".h5", 3);
  }

  /** Every output file is an HDF5 file inside the stage's directory. */
  lemma OutputFileInStageDir(stage: Stage, reducedWindow: bool, antRef: bool)
    ensures var fn := OutputFile(stage, reducedWindow, antRef);
      && |StageDir(stage)| < |fn| && fn[..|StageDir(stage)|] == StageDir(stage)
      && fn[|fn| - 3..] == ".h5"
  {
    var dir := StageDir(stage);
    if reducedWindow && antRef {
      assert OutputFile(stage, reducedWindow, antRef) == dir + "snr_heart_ant_smallwin" + ".h5";
      HdfFileInDir(dir, "snr_heart_ant_smallwin");
    } else if reducedWindow {
      assert OutputFile(stage, reducedWindow, antRef) == dir + "snr_heart_smallwin" + ".h5";
      HdfFileInDir(dir, "snr_heart_smallwin");
    } else if antRef {
      assert OutputFile(stage, reducedWindow, antRef) == dir + "snr_heart_ant" + ".h5";
      HdfFileInDir(dir, "snr_heart_ant");
    } else {
      assert OutputFile(stage, reducedWindow, antRef) == dir + "snr_heart" + ".h5";
      HdfFileInDir(dir, "snr_heart");
    }
  }

  lemma StageDirHasNoW(stage: Stage)
    ensures 'w' !in StageDir(stage)
  {
  }

  // Each stage directory checked on its own: one literal per proof.
  lemma PreparedDirHasNoUnderscoreA()
    ensures NoPair(StageDir(Prepared), '_', 'a')
  {
  }

  lemma PcaDirHasNoUnderscoreA()
    ensures NoPair(StageDir(Pca), '_', 'a')
  {
  }

  lemma PostIcaDirHasNoUnderscoreA()
    ensures NoPair(StageDir(PostIca), '_', 'a')
  {
  }

  lemma IcaDirHasNoUnderscoreA()
    ensures NoPair(StageDir(Ica), '_', 'a')
  {
  }

  lemma SspDirHasNoUnderscoreA()
    ensures NoPair(StageDir(Ssp), '_', 'a')
  {
  }

  /** No stage directory holds an underscore followed by `a`. */
  lemma StageDirHasNoUnderscoreA(stage: Stage)
    ensures NoPair(StageDir(stage), '_', 'a')
  {
    match stage
    case Prepared => PreparedDirHasNoUnderscoreA();
    case Pca => PcaDirHasNoUnderscoreA();
    case PostIca => PostIcaDirHasNoUnderscoreA();
    case Ica => IcaDirHasNoUnderscoreA();
    case Ssp => SspDirHasNoUnderscoreA();
  }

  lemma OutputFileWithSmallwin(stage: Stage, antRef: bool)
    ensures Occurs("smallwin", OutputFile(stage, true, antRef))
  {
    if antRef {
      assert OccursAt("smallwin", "snr_heart_ant_smallwin.h5", 14);
      OccursInPrefixed(StageDir(stage), "smallwin", "snr_heart_ant_smallwin.h5");
    } else {
      assert OccursAt("smallwin", "snr_heart_smallwin.h5", 10);
      OccursInPrefixed(StageDir(stage), "smallwin", "snr_heart_smallwin.h5");
    }
  }

  lemma OutputFileWithoutSmallwin(stage: Stage, antRef: bool)
    ensures !Occurs("smallwin", OutputFile(stage, false, antRef))
  {
    StageDirHasNoW(stage);
    var base := if antRef then "snr_heart_ant.h5" else "snr_heart.h5";
    assert 'w' !in "snr_heart_ant.h5" && 'w' !in "snr_heart.h5";
    assert OutputFile(stage, false, antRef) == StageDir(stage) + base;
    AbsentChar("smallwin", StageDir(stage) + base, 'w');
  }

  /** The output name contains `smallwin` exactly when `reduced_window` is
      set. */
  lemma OutputFileSmallwinTag(stage: Stage, reducedWindow: bool, antRef: bool)
    ensures Occurs("smallwin", OutputFile(stage, reducedWindow, antRef)) <==> reducedWindow
  {
    if reducedWindow {
      OutputFileWithSmallwin(stage, antRef);
    } else {
      OutputFileWithoutSmallwin(stage, antRef);
    }
  }

  lemma OutputFileWithAnt(stage: Stage, reducedWindow: bool)
    ensures Occurs("_ant", OutputFile(stage, reducedWindow, true))
  {
    if reducedWindow {
      assert OccursAt("_ant", "snr_heart_ant_smallwin.h5", 9);
      OccursInPrefixed(StageDir(stage), "_ant", "snr_heart_ant_smallwin.h5");
    } else {
      assert OccursAt("_ant", "snr_heart_ant.h5", 9);
      OccursInPrefixed(StageDir(stage), "_ant", "snr_heart_ant.h5");
    }
  }

  lemma OutputFileWithoutAnt(stage: Stage, reducedWindow: bool)
    ensures !Occurs("_ant", OutputFile(stage, reducedWindow, false))
  {
    var dir := StageDir(stage);
    var base := if reducedWindow then "snr_heart_smallwin.h5" else "snr_heart.h5";
    assert NoPair(base, '_', 'a');
    StageDirHasNoUnderscoreA(stage);
    NoPairConcat(dir, base, '_', 'a');
    assert OutputFile(stage, reducedWindow, false) == dir + base;
    AbsentPair("_ant", dir + base);
  }

  /** The output name contains `_ant` exactly when `ant_ref` is set. */
  lemma OutputFileAntTag(stage: Stage, reducedWindow: bool, antRef: bool)
    ensures Occurs("_ant", OutputFile(stage, reducedWindow, antRef)) <==> antRef
  {
    if antRef {
      OutputFileWithAnt(stage, reducedWindow);
    } else {
      OutputFileWithoutAnt(stage, reducedWindow);
    }
  }

  /** The four flag combinations give four distinct output names in every
      stage directory. */
  lemma OutputFilesDistinct(stage: Stage, r1: bool, a1: bool, r2: bool, a2: bool)
    requires OutputFile(stage, r1, a1) == OutputFile(stage, r2, a2)
    ensures r1 == r2 && a1 == a2
  {
    OutputFileSmallwinTag(stage, r1, a1);
    OutputFileSmallwinTag(stage, r2, a2);
    OutputFileAntTag(stage, r1, a1);
    OutputFileAntTag(stage, r2, a2);
  }

  // ---------------------------------------------------------------------
  // Table indices
  // ---------------------------------------------------------------------

  /** numpy's reading of an integer index on an axis of length `len`:
      negative indices count from the end, anything else out of range raises
      IndexError (None). */
  function ResolveIndex(i: int, len: nat): (r: Option<nat>)
    ensures r.Some? <==> -(len as int) <= i < len
    ensures r.Some? ==> r.value < len && (r.value == i || r.value == i + len)
  {
    if 0 <= i < len then Some(i) else if -(len as int) <= i < 0 then Some(i + len) else None
  }

  /** The row `subject - 1` resolves to in a table of SubjectCount rows:
      subjects 1..36 land on rows 0..35 without wrap-around, so row r is
      the row of subject r + 1 and of no other subject in 1..36. */
  function SubjectRow(subject: int): (row: Option<nat>)
    ensures FirstSubject <= subject <= SubjectCount ==> row == Some(subject - 1)
    ensures row.Some? ==> row.value < SubjectCount
  {
    ResolveIndex(subject - 1, SubjectCount)
  }

  /** The column `n - 5` resolves to in a table of ProjectorColumns columns:
      projector counts 5..20 land on columns 0..15 without wrap-around. */
  function ProjectorColumn(n: int): (col: Option<nat>)
    ensures FirstProjectors <= n <= LastProjectors ==> col == Some(n - FirstProjectors)
    ensures col.Some? ==> col.value < ProjectorColumns
  {
    ResolveIndex(n - FirstProjectors, ProjectorColumns)
  }

  /** The column the script writes a measurement to: `n - 5` for
      projector count n in the SSP stage, 0 in every other stage. */
  function ColumnIndex(stage: Stage, n: int): int
  {
    if stage == Ssp then n - FirstProjectors else 0
  }

  /** The row and column the script computes for a cell of a stage table
      resolve to that very cell, without wrap-around. */
  lemma CellIndicesResolve(stage: Stage, row: nat, col: nat)
    requires row < SubjectCount && col < Columns(stage)
    ensures ResolveIndex(row + 1 - 1, SubjectCount) == Some(row)
    ensures ResolveIndex(ColumnIndex(stage, ProjectorsOfColumn(stage, col)), Columns(stage)) == Some(col)
  {
    assert SubjectRow(row + 1) == Some(row);
    if stage == Ssp {
      assert ProjectorColumn(col + FirstProjectors) == Some(col);
    }
  }

  /** n -> n - 5 is a bijection from the projector counts 5..20 onto the
      16 columns. */
  lemma ProjectorColumnsBijective(n1: int, n2: int, col: nat)
    requires FirstProjectors <= n1 <= LastProjectors && FirstProjectors <= n2 <= LastProjectors
    ensures ProjectorColumn(n1) == ProjectorColumn(n2) ==> n1 == n2
    ensures col < ProjectorColumns ==> ProjectorColumn(col + FirstProjectors) == Some(col)
  {
  }

  // ---------------------------------------------------------------------
  // The order in which a sweep writes cells
  // ---------------------------------------------------------------------

  /** One table cell: the condition picks the table. */
  datatype Cell = Cell(cond: Condition, row: nat, col: nat)

  function RowCells(c: Condition, row: nat, count: nat): (cells: seq<Cell>)
    ensures |cells| == count
    ensures forall j | 0 <= j < count :: cells[j] == Cell(c, row, j)
  {
    seq(count, j requires 0 <= j < count => Cell(c, row, j))
  }

  /** The cells written for one subject after the first k conditions. */
  function CondCells(k: nat, row: nat, cols: nat): seq<Cell>
    requires k <= |Conditions|
  {
    if k == 0 then [] else CondCells(k - 1, row, cols) + RowCells(Conditions[k - 1], row, cols)
  }

  /** The cells a sweep over the first `rows` subjects writes, in the order
      it writes them: subject by subject, median before tibial, column by
      column. */
  function SweepOrder(rows: nat, cols: nat): seq<Cell>
  {
    if rows == 0 then [] else SweepOrder(rows - 1, cols) + CondCells(|Conditions|, rows - 1, cols)
  }

  lemma DistinctConcat(a: seq<Cell>, b: seq<Cell>)
    requires Distinct(a) && Distinct(b)
    requires forall x | x in a :: x !in b
    ensures Distinct(a + b)
  {
    forall i, j | 0 <= i < j < |a + b|
      ensures (a + b)[i] != (a + b)[j]
    {
      if j >= |a| && i < |a| {
        assert (a + b)[i] in a && (a + b)[j] == b[j - |a|];
      }
    }
  }

  lemma SubjectCellsOnce(row: nat, cols: nat)
    ensures Distinct(CondCells(|Conditions|, row, cols))
    ensures forall x :: x in CondCells(|Conditions|, row, cols) <==> x.row == row && x.col < cols
  {
    var m, t := RowCells(Median, row, cols), RowCells(Tibial, row, cols);
    assert Conditions[0] == Median && Conditions[1] == Tibial;
    assert CondCells(1, row, cols) == [] + m == m;
    assert CondCells(|Conditions|, row, cols) == m + t;
    DistinctConcat(m, t);
    forall x: Cell | x.row == row && x.col < cols
      ensures x in m + t
    {
      if x.cond == Median { assert m[x.col] == x; } else { assert t[x.col] == x; }
    }
  }

  /** A sweep over `rows` subjects writes every cell of the two
      rows x cols tables, and writes each of them exactly once. */
  lemma {:induction false} SweepWritesEachCellOnce(rows: nat, cols: nat)
    ensures Distinct(SweepOrder(rows, cols))
    ensures forall x :: x in SweepOrder(rows, cols) <==> x.row < rows && x.col < cols
  {
    if rows > 0 {
      SweepWritesEachCellOnce(rows - 1, cols);
      SubjectCellsOnce(rows - 1, cols);
      DistinctConcat(SweepOrder(rows - 1, cols), CondCells(|Conditions|, rows - 1, cols));
    }
  }

  // ---------------------------------------------------------------------
  // What a sweep stores
  // ---------------------------------------------------------------------

  /** The projector count a stage's table column stands for (SSP: column
      n - 5 holds n projectors; other stages have one column). */
  function ProjectorsOfColumn(stage: Stage, col: nat): nat
  {
    if stage == Ssp then col + FirstProjectors else 0
  }

  /** The value the script stores for a subject, condition and projector
      count: the external SNR measurement of the recording it reads. */
  function Measured(stage: Stage, antRef: bool, measure: (string, Reference) -> Snr,
                    condName: string, subject: nat, projectors: nat): Snr
  {
    measure(InputPath(stage, SubjectId(subject), condName, projectors, antRef),
            StageReference(stage, antRef, condName))
  }

  /** The value a finished sweep leaves in a cell. */
  function Expected(stage: Stage, antRef: bool, measure: (string, Reference) -> Snr, x: Cell): Snr
  {
    Measured(stage, antRef, measure, ConditionName(x.cond), x.row + 1, ProjectorsOfColumn(stage, x.col))
  }

  /** `want` gives, cell by cell, the value a finished sweep of `stage`
      leaves there. Only a mention of Expected unfolds it, so the sweep
      loops reason about `want` without expanding recording paths. */
  ghost predicate Describes(want: Cell -> Snr, stage: Stage, antRef: bool, measure: (string, Reference) -> Snr)
  {
    forall x {:trigger Expected(stage, antRef, measure, x)} :: want(x) == Expected(stage, antRef, measure, x)
  }

  /** `med` and `tib` are the tables a finished sweep of `stage` leaves:
      one row per subject, one column per projector count, and in each cell
      the measurement of that cell's recording. */
  ghost predicate SweptTables(stage: Stage, antRef: bool, measure: (string, Reference) -> Snr,
                              med: seq<seq<Snr>>, tib: seq<seq<Snr>>)
  {
    && |med| == SubjectCount && |tib| == SubjectCount
    && (forall i | 0 <= i < SubjectCount :: |med[i]| == Columns(stage) && |tib[i]| == Columns(stage))
    && forall i, j | 0 <= i < SubjectCount && 0 <= j < Columns(stage) ::
         && med[i][j] == Expected(stage, antRef, measure, Cell(Median, i, j))
         && tib[i][j] == Expected(stage, antRef, measure, Cell(Tibial, i, j))
  }

  /** The per-stage result record (`snr_med`, `snr_tib`) written to one
      output file; keywords come in the alphabetical order of `dir()`. */
  datatype Dataset = Dataset(keyword: string, data: seq<seq<Snr>>)
  datatype StageOutput = StageOutput(file: string, datasets: seq<Dataset>)

  function Rows(a: array2<Snr>): (m: seq<seq<Snr>>)
    reads a
    ensures |m| == a.Length0
    ensures forall i | 0 <= i < a.Length0 :: |m[i]| == a.Length1
    ensures forall i, j | 0 <= i < a.Length0 && 0 <= j < a.Length1 :: m[i][j] == a[i, j]
  {
    seq(a.Length0, i requires 0 <= i < a.Length0 reads a =>
      seq(a.Length1, j reads a requires 0 <= i < a.Length0 && 0 <= j < a.Length1 => a[i, j]))
  }

  /** The two result tables of one stage, `snr_med` and `snr_tib`, filled in
      place. `written` records every cell write in order. */
  class SnrTables {
    var med: array2<Snr>
    var tib: array2<Snr>
    ghost var written: seq<Cell>

    ghost predicate Valid()
      reads this
    {
      med != tib && med.Length0 == tib.Length0 && med.Length1 == tib.Length1
    }

    /** `np.zeros((rows, cols))` for each condition. */
    constructor (rows: nat, cols: nat)
      ensures Valid() && fresh(med) && fresh(tib)
      ensures med.Length0 == rows && med.Length1 == cols
      ensures forall i, j | 0 <= i < rows && 0 <= j < cols :: med[i, j] == Some(0.0) && tib[i, j] == Some(0.0)
      ensures written == []
    {
      med := new Snr[rows, cols]((_, _) => Some(0.0));
      tib := new Snr[rows, cols]((_, _) => Some(0.0));
      written := [];
    }

    /** The value a cell currently holds. */
    ghost function At(x: Cell): Snr
      reads this, med, tib
      requires Valid() && x.row < med.Length0 && x.col < med.Length1
    {
      if x.cond == Median then med[x.row, x.col] else tib[x.row, x.col]
    }

    /** Cell x holds what `want` says it should. */
    ghost predicate Holds(want: Cell -> Snr, x: Cell)
      reads this, med, tib
      requires Valid()
    {
      x.row < med.Length0 && x.col < med.Length1 && At(x) == want(x)
    }

    /** `snr_med[subject - 1, column] = snr` for the median condition,
        `snr_tib[...]` for the tibial one, nothing for any other name. A
        false `ok` is numpy's IndexError. */
    method Store(condName: string, subject: int, column: int, snr: Snr) returns (ok: bool)
      requires Valid()
      modifies med, tib, this`written
      ensures Valid()
      ensures var row, col := ResolveIndex(subject - 1, med.Length0), ResolveIndex(column, med.Length1);
        && (ok <==> condName !in CondNames || (row.Some? && col.Some?))
        && (ok && condName in CondNames ==>
              var x := Cell(ConditionOf(condName).value, row.value, col.value);
              && written == old(written) + [x]
              && At(x) == snr
              && forall y: Cell | y.row < med.Length0 && y.col < med.Length1 && y != x :: At(y) == old(At(y)))
        && (!ok || condName !in CondNames ==> written == old(written) && unchanged(med) && unchanged(tib))
    {
      var row, col := ResolveIndex(subject - 1, med.Length0), ResolveIndex(column, med.Length1);
      if condName == "median" {
        if row.None? || col.None? { return false; }
        med[row.value, col.value] := snr;
        written := written + [Cell(Median, row.value, col.value)];
      } else if condName == "tibial" {
        if row.None? || col.None? { return false; }
        tib[row.value, col.value] := snr;
        written := written + [Cell(Tibial, row.value, col.value)];
      }
      return true;
    }

    /** One step of a sweep: measure the recording of cell x's subject,
        condition and projector count and store the value in x. */
    method MeasureAndStore(stage: Stage, antRef: bool, measure: (string, Reference) -> Snr,
                           x: Cell, ghost want: Cell -> Snr, ghost done: seq<Cell>)
      requires Valid() && x.row < med.Length0 && x.col < med.Length1
      requires med.Length0 == SubjectCount && med.Length1 == Columns(stage)
      requires Describes(want, stage, antRef, measure)
      requires forall y | y in done :: Holds(want, y)
      modifies med, tib, this`written
      ensures Valid() && med == old(med) && tib == old(tib)
      ensures written == old(written) + [x]
      ensures forall y | y in done + [x] :: Holds(want, y)
      ensures forall y: Cell | y.row < med.Length0 && y.col < med.Length1 && y != x :: At(y) == old(At(y))
    {
      var condName := ConditionName(x.cond);
      var subject := x.row + 1;
      var n := ProjectorsOfColumn(stage, x.col);
      var snr := Measured(stage, antRef, measure, condName, subject, n);
      assert snr == want(x) && condName in CondNames by {
        ConditionNameRoundTrip(x.cond);
        assert snr == Expected(stage, antRef, measure, x);
      }
      assert ConditionOf(condName) == Some(x.cond) by {
        ConditionNameRoundTrip(x.cond);
      }
      var column := ColumnIndex(stage, n);
      assert ResolveIndex(subject - 1, med.Length0) == Some(x.row) && ResolveIndex(column, med.Length1) == Some(x.col) by {
        CellIndicesResolve(stage, x.row, x.col);
      }
      label Before:
      var ok := Store(condName, subject, column, snr);
      assert ok && At(x) == snr;
      forall y | y in done + [x]
        ensures Holds(want, y)
      {
        if y != x {
          assert old@Before(Holds(want, y));
        }
      }
    }

    /** Every cell of both tables holds what `want` says it should. */
    ghost predicate Filled(want: Cell -> Snr)
      reads this, med, tib
      requires Valid()
    {
      forall x: Cell | x.row < med.Length0 && x.col < med.Length1 :: Holds(want, x)
    }

    /** Once every cell a sweep writes holds its value, the whole of both
        tables does. */
    lemma SweepFillsTables(want: Cell -> Snr)
      requires Valid()
      requires forall x | x in SweepOrder(med.Length0, med.Length1) :: Holds(want, x)
      ensures Filled(want)
    {
      SweepWritesEachCellOnce(med.Length0, med.Length1);
    }

    /** Tables filled as a sweep of `stage` leaves them, read out row by
        row, are that sweep's result tables. */
    lemma FilledRows(stage: Stage, antRef: bool, measure: (string, Reference) -> Snr, want: Cell -> Snr)
      requires Valid() && med.Length0 == SubjectCount && med.Length1 == Columns(stage)
      requires Describes(want, stage, antRef, measure) && Filled(want)
      ensures SweptTables(stage, antRef, measure, Rows(med), Rows(tib))
    {
      forall i, j | 0 <= i < SubjectCount && 0 <= j < Columns(stage)
        ensures Rows(med)[i][j] == Expected(stage, antRef, measure, Cell(Median, i, j))
        ensures Rows(tib)[i][j] == Expected(stage, antRef, measure, Cell(Tibial, i, j))
      {
        assert Holds(want, Cell(Median, i, j));
        assert Holds(want, Cell(Tibial, i, j));
      }
    }

    /** The inner loop of a single-column stage for one subject: both
        conditions, median first, each stored at column 0 of the subject's
        row. It continues a sweep whose earlier rows are written (`start` is
        the log before the sweep). */
    method FillStageSubject(stage: Stage, antRef: bool, measure: (string, Reference) -> Snr,
                            ghost want: Cell -> Snr, row: nat, ghost start: seq<Cell>)
      requires Valid() && stage != Ssp && row < med.Length0 == SubjectCount && med.Length1 == 1
      requires Describes(want, stage, antRef, measure)
      requires written == start + SweepOrder(row, med.Length1)
      requires forall y | y in SweepOrder(row, med.Length1) :: Holds(want, y)
      modifies med, tib, this`written
      ensures Valid()
      ensures written == start + SweepOrder(row + 1, med.Length1)
      ensures forall y | y in SweepOrder(row + 1, med.Length1) :: Holds(want, y)
      ensures forall y: Cell | y.row < med.Length0 && y.col < med.Length1 && y.row != row :: At(y) == old(At(y))
    {
      ghost var done := SweepOrder(row, med.Length1);
      var k := 0;
      while k < |CondNames|
        invariant 0 <= k <= |CondNames|
        invariant Valid()
        invariant written == start + done + CondCells(k, row, 1)
        invariant forall y | y in done + CondCells(k, row, 1) :: Holds(want, y)
        invariant forall y: Cell | y.row < med.Length0 && y.col < med.Length1 && y.row != row :: At(y) == old(At(y))
      {
        ghost var before := done + CondCells(k, row, 1);
        var x := Cell(Conditions[k], row, 0);
        MeasureAndStore(stage, antRef, measure, x, want, before);
        assert RowCells(Conditions[k], row, 1) == [x];
        assert before + [x] == done + CondCells(k + 1, row, 1);
        k := k + 1;
      }
      assert SweepOrder(row + 1, med.Length1) == done + CondCells(|Conditions|, row, 1);
    }

    /** The sweep of a single-column stage (prepared, PCA, post-ICA, ICA):
        every subject and condition, stored at row `subject - 1`, column 0. */
    method FillStage(stage: Stage, antRef: bool, measure: (string, Reference) -> Snr, ghost want: Cell -> Snr)
      requires Valid() && stage != Ssp
      requires med.Length0 == SubjectCount && med.Length1 == 1
      requires Describes(want, stage, antRef, measure)
      modifies med, tib, this`written
      ensures Valid()
      ensures written == old(written) + SweepOrder(med.Length0, med.Length1)
      ensures Filled(want)
    {
      var subject := FirstSubject;
      while subject <= SubjectCount
        invariant FirstSubject <= subject <= SubjectCount + 1
        invariant Valid()
        invariant written == old(written) + SweepOrder(subject - 1, med.Length1)
        invariant forall x | x in SweepOrder(subject - 1, med.Length1) :: Holds(want, x)
      {
        FillStageSubject(stage, antRef, measure, want, subject - 1, old(written));
        subject := subject + 1;
      }
      SweepFillsTables(want);
    }

    /** The innermost SSP loop for one subject and condition: projector
        counts n = 5..20, stored at column `n - 5` of the subject's row. */
    method FillProjectorCounts(antRef: bool, measure: (string, Reference) -> Snr, ghost want: Cell -> Snr,
                               c: Condition, row: nat, ghost done: seq<Cell>)
      requires Valid() && row < med.Length0 == SubjectCount && med.Length1 == ProjectorColumns
      requires Describes(want, Ssp, antRef, measure)
      requires forall y | y in done :: Holds(want, y)
      modifies med, tib, this`written
      ensures Valid()
      ensures written == old(written) + RowCells(c, row, ProjectorColumns)
      ensures forall y | y in done + RowCells(c, row, ProjectorColumns) :: Holds(want, y)
      ensures forall y: Cell | y.row < med.Length0 && y.col < med.Length1 && (y.row != row || y.cond != c) ::
                At(y) == old(At(y))
    {
      var n := FirstProjectors;
      while n <= LastProjectors
        invariant FirstProjectors <= n <= LastProjectors + 1
        invariant Valid()
        invariant written == old(written) + RowCells(c, row, n - FirstProjectors)
        invariant forall y | y in done + RowCells(c, row, n - FirstProjectors) :: Holds(want, y)
        invariant forall y: Cell | y.row < med.Length0 && y.col < med.Length1 && (y.row != row || y.cond != c) ::
                    At(y) == old(At(y))
      {
        ghost var before := done + RowCells(c, row, n - FirstProjectors);
        var x := Cell(c, row, n - FirstProjectors);
        MeasureAndStore(Ssp, antRef, measure, x, want, before);
        assert RowCells(c, row, n - FirstProjectors) + [x] == RowCells(c, row, n + 1 - FirstProjectors);
        assert before + [x] == done + RowCells(c, row, n + 1 - FirstProjectors);
        n := n + 1;
      }
    }

    /** The middle SSP loop for one subject: both conditions, median
        first, each over every projector count. It continues a sweep whose
        earlier rows are written (`start` is the log before the sweep). */
    method FillSspSubject(antRef: bool, measure: (string, Reference) -> Snr, ghost want: Cell -> Snr,
                          row: nat, ghost start: seq<Cell>)
      requires Valid() && row < med.Length0 == SubjectCount && med.Length1 == ProjectorColumns
      requires Describes(want, Ssp, antRef, measure)
      requires written == start + SweepOrder(row, med.Length1)
      requires forall y | y in SweepOrder(row, med.Length1) :: Holds(want, y)
      modifies med, tib, this`written
      ensures Valid()
      ensures written == start + SweepOrder(row + 1, med.Length1)
      ensures forall y | y in SweepOrder(row + 1, med.Length1) :: Holds(want, y)
      ensures forall y: Cell | y.row < med.Length0 && y.col < med.Length1 && y.row != row :: At(y) == old(At(y))
    {
      ghost var done := SweepOrder(row, med.Length1);
      var k := 0;
      while k < |CondNames|
        invariant 0 <= k <= |CondNames|
        invariant Valid()
        invariant written == start + done + CondCells(k, row, ProjectorColumns)
        invariant forall y | y in done + CondCells(k, row, ProjectorColumns) :: Holds(want, y)
        invariant forall y: Cell | y.row < med.Length0 && y.col < med.Length1 && y.row != row :: At(y) == old(At(y))
      {
        ghost var before := done + CondCells(k, row, ProjectorColumns);
        FillProjectorCounts(antRef, measure, want, Conditions[k], row, before);
        assert before + RowCells(Conditions[k], row, ProjectorColumns)
               == done + CondCells(k + 1, row, ProjectorColumns);
        k := k + 1;
      }
      assert SweepOrder(row + 1, med.Length1) == done + CondCells(|Conditions|, row, ProjectorColumns);
    }

    /** The SSP sweep: every subject, condition and projector count n in
        5..20, stored at row `subject - 1`, column `n - 5`. */
    method FillSsp(antRef: bool, measure: (string, Reference) -> Snr, ghost want: Cell -> Snr)
      requires Valid()
      requires med.Length0 == SubjectCount && med.Length1 == ProjectorColumns
      requires Describes(want, Ssp, antRef, measure)
      modifies med, tib, this`written
      ensures Valid()
      ensures written == old(written) + SweepOrder(med.Length0, med.Length1)
      ensures Filled(want)
    {
      var subject := FirstSubject;
      while subject <= SubjectCount
        invariant FirstSubject <= subject <= SubjectCount + 1
        invariant Valid()
        invariant written == old(written) + SweepOrder(subject - 1, med.Length1)
        invariant forall x | x in SweepOrder(subject - 1, med.Length1) :: Holds(want, x)
      {
        FillSspSubject(antRef, measure, want, subject - 1, old(written));
        subject := subject + 1;
      }
      SweepFillsTables(want);
    }
  }

  /** The two tables of one stage after its sweep: 36 rows and one
      column per projector count (16 for SSP, 1 otherwise). */
  method SweepStage(stage: Stage, antRef: bool, measure: (string, Reference) -> Snr)
    returns (med: seq<seq<Snr>>, tib: seq<seq<Snr>>)
    ensures SweptTables(stage, antRef, measure, med, tib)
  {
    ghost var want := (x: Cell) => Expected(stage, antRef, measure, x);
    var tables := new SnrTables(SubjectCount, Columns(stage));
    if stage == Ssp {
      tables.FillSsp(antRef, measure, want);
    } else {
      tables.FillStage(stage, antRef, measure, want);
    }
    tables.FilledRows(stage, antRef, measure, want);
    med, tib := Rows(tables.med), Rows(tables.tib);
  }

  /** One processing stage end to end: zero-filled tables, the sweep, and
      the record saved under the flag-selected output name. */
  method RunStage(stage: Stage, reducedWindow: bool, antRef: bool,
                  measure: (string, Reference) -> Snr) returns (out: StageOutput)
    ensures out.file == OutputFile(stage, reducedWindow, antRef)
    ensures |out.datasets| == 2
    ensures out.datasets[0].keyword == "snr_med" && out.datasets[1].keyword == "snr_tib"
    ensures SweptTables(stage, antRef, measure, out.datasets[0].data, out.datasets[1].data)
  {
    var med, tib := SweepStage(stage, antRef, measure);
    out := StageOutput(OutputFile(stage, reducedWindow, antRef),
                       [Dataset("snr_med", med), Dataset("snr_tib", tib)]);
  }
}
