/** The statistics script that compares processing stages: it gathers the
    per-stage SNR tables into one subject-indexed table per condition,
    drops subjects with a missing value, forms "later stage minus anchor"
    difference columns for the anchors Prep and PCA, and pairs each
    difference label with the p-value a permutation t-test gives it. */
module SnrStats {
  import opened Wrappers
  import HeartSnr

  type Snr = HeartSnr.Snr

  // ---------------------------------------------------------------------
  // Inputs: stage directories, file name, column names
  // ---------------------------------------------------------------------

  const FileName: string := "snr.h5"
  const PrepPath: string := "/data/pt_02569/tmp_data/prepared_py/"
  const PcaPath: string := "/data/pt_02569/tmp_data/ecg_rm_py/"
  const IcaPath: string := "/data/pt_02569/tmp_data/baseline_ica_py/"
  const PostIcaPath: string := "/data/pt_02569/tmp_data/ica_py/"
  const SspPath: string := "/data/p_02569/SSP/"

  /** The stage directories in the order their columns enter the table. */
  const FilePaths: seq<string> := [PrepPath, PcaPath, IcaPath, PostIcaPath, SspPath]
  const StageNames: seq<string> := ["Prep", "PCA", "ICA", "Post-ICA", "SSP"]
  /** The column names the assembled table is meant to have. */
  const ColumnNames: seq<string> := ["Prep", "PCA", "ICA", "Post-ICA", "SSP_5", "SSP_6"]
  const Keywords: seq<string> := ["snr_med", "snr_tib"]
  const SspFile: nat := 4

  /** `np.arange(lo, hi)`. */
  function Arange(lo: int, hi: int): (r: seq<int>)
    ensures |r| == if lo <= hi then hi - lo else 0
    ensures forall i | 0 <= i < |r| :: r[i] == lo + i
    decreases hi - lo
  {
    if lo >= hi then [] else [lo] + Arange(lo + 1, hi)
  }

  /** The table index: subjects 1..36. */
  const SubjectIndex: seq<int> := Arange(1, HeartSnr.SubjectCount + 1)

  /** The statistics read each stage from the directory the SNR computation
      writes that stage to. */
  lemma FilePathsAreStageDirs()
    ensures FilePaths == [HeartSnr.StageDir(HeartSnr.Prepared), HeartSnr.StageDir(HeartSnr.Pca),
                          HeartSnr.StageDir(HeartSnr.Ica), HeartSnr.StageDir(HeartSnr.PostIca),
                          HeartSnr.StageDir(HeartSnr.Ssp)]
  {
  }

  /** The SNR computation never writes the file name read here: every
      output name it chooses differs from `snr.h5` in the same stage
      directory. */
  lemma ReadNameIsNotWrittenName(stage: HeartSnr.Stage, reducedWindow: bool, antRef: bool)
    ensures HeartSnr.OutputFile(stage, reducedWindow, antRef) != HeartSnr.StageDir(stage) + FileName
  {
  }

  // ---------------------------------------------------------------------
  // Stored files and numpy views of them
  // ---------------------------------------------------------------------

  /** An HDF5 result file: datasets by keyword. */
  type H5File = map<string, seq<seq<Snr>>>

  /** `reshape(-1)`: the rows of a matrix one after another. */
  function Flatten(m: seq<seq<Snr>>): (v: seq<Snr>)
    ensures |m| > 0 ==> |m[0]| <= |v| && v[..|m[0]|] == m[0]
  {
    if m == [] then [] else m[0] + Flatten(m[1..])
  }

  /** Flattening is row-major: the rows of a stacked matrix follow one
      another. */
  lemma {:induction false} FlattenConcat(a: seq<seq<Snr>>, b: seq<seq<Snr>>)
    ensures Flatten(a + b) == Flatten(a) + Flatten(b)
    decreases |a|
  {
    if a == [] {
      assert a + b == b;
    } else {
      assert (a + b)[0] == a[0] && (a + b)[1..] == a[1..] + b;
      FlattenConcat(a[1..], b);
      assert Flatten(a + b) == a[0] + (Flatten(a[1..]) + Flatten(b));
    }
  }

  /** A one-row matrix flattens to that row. */
  lemma FlattenRow(r: seq<Snr>)
    ensures Flatten([r]) == r
  {
    assert [r][1..] == [];
  }

  /** A rows x w matrix flattens to rows * w values. */
  lemma {:induction false} FlattenLength(m: seq<seq<Snr>>, w: nat)
    requires forall i | 0 <= i < |m| :: |m[i]| == w
    ensures |Flatten(m)| == |m| * w
    decreases |m|
  {
    if m != [] {
      FlattenLength(m[1..], w);
      assert |m| * w == w + (|m| - 1) * w;
    }
  }

  /** A single-column matrix flattens to its column. */
  lemma {:induction false} FlattenSingleColumn(m: seq<seq<Snr>>)
    requires forall i | 0 <= i < |m| :: |m[i]| == 1
    ensures |Flatten(m)| == |m|
    ensures forall i | 0 <= i < |m| :: Flatten(m)[i] == m[i][0]
  {
    if m != [] {
      var rest := m[1..];
      FlattenSingleColumn(rest);
      assert |m[0]| == 1;
      assert Flatten(m) == m[0] + Flatten(rest);
      forall i | 1 <= i < |m|
        ensures Flatten(m)[i] == m[i][0]
      {
        assert Flatten(m)[i] == Flatten(rest)[i - 1] == rest[i - 1][0];
      }
    }
  }

  /** `m[:, j]`, or an IndexError (None) when some row has no column j. */
  function ColumnAt(m: seq<seq<Snr>>, j: nat): (c: Option<seq<Snr>>)
    ensures c.Some? <==> forall i | 0 <= i < |m| :: j < |m[i]|
    ensures c.Some? ==> |c.value| == |m| && forall i | 0 <= i < |m| :: c.value[i] == m[i][j]
  {
    if forall i | 0 <= i < |m| :: j < |m[i]| then Some(seq(|m|, i requires 0 <= i < |m| => m[i][j]))
    else None
  }

  // ---------------------------------------------------------------------
  // Data frames
  // ---------------------------------------------------------------------

  datatype Column = Column(name: string, values: seq<Snr>)

  /** A table with one row per index entry and named columns. */
  datatype Frame = Frame(index: seq<int>, columns: seq<Column>)

  datatype StatsError =
    | KeyMissing(keyword: string)
    | LengthMismatch(name: string)
    | ColumnOutOfRange(column: nat)
    | NoObjectsToConcatenate
    | NameIndexOutOfRange(index: nat)

  predicate WellFormed(f: Frame) {
    forall j | 0 <= j < |f.columns| :: |f.columns[j].values| == |f.index|
  }

  function Names(f: Frame): (names: seq<string>)
    ensures |names| == |f.columns|
    ensures forall j | 0 <= j < |f.columns| :: names[j] == f.columns[j].name
  {
    seq(|f.columns|, j requires 0 <= j < |f.columns| => f.columns[j].name)
  }

  /** The position of the first column called `name`. */
  function IndexOf(names: seq<string>, name: string): (r: Option<nat>)
    ensures r.None? <==> name !in names
    ensures r.Some? ==> r.value < |names| && names[r.value] == name && name !in names[..r.value]
  {
    if names == [] then None
    else if names[0] == name then Some(0)
    else
      var r := IndexOf(names[1..], name);
      if r.None? then None
      else
        assert names[..r.value + 1] == [names[0]] + names[1..][..r.value];
        Some(r.value + 1)
  }

  /** `df[name]`: the values of the first column called `name`. pandas
      would return every column of that name; the two agree on the frames
      the script builds, whose names are all distinct (StageTableShape). */
  function ColumnNamed(f: Frame, name: string): (c: Option<seq<Snr>>)
    ensures c.Some? <==> name in Names(f)
  {
    var k := IndexOf(Names(f), name);
    if k.Some? then Some(f.columns[k.value].values) else None
  }

  /** `df[name]` holds the values of the first column called `name`. */
  lemma ColumnNamedIsFirst(f: Frame, name: string, j: nat)
    requires j < |f.columns| && f.columns[j].name == name && name !in Names(f)[..j]
    ensures ColumnNamed(f, name) == Some(f.columns[j].values)
  {
    var names := Names(f);
    assert names[j] == name;
    var r := IndexOf(names, name).value;
    assert forall t | 0 <= t < j :: names[t] in names[..j];
    assert forall t | 0 <= t < r :: names[t] in names[..r];
  }

  /** `df[name] = values`, whose length already matches the index:
      replaces the first column of that name in place, or appends a new
      one. pandas would overwrite every column of that name; the script
      only assigns names the frame does not hold yet (AddMiddleStep,
      AddSspStep). */
  function SetColumn(f: Frame, name: string, values: seq<Snr>): (r: Frame)
    requires WellFormed(f) && |values| == |f.index|
    ensures WellFormed(r) && r.index == f.index
    ensures ColumnNamed(r, name) == Some(values)
    ensures name !in Names(f) ==> r.columns == f.columns + [Column(name, values)]
    ensures name in Names(f) ==>
              && |r.columns| == |f.columns| && Names(r) == Names(f)
              && forall j | 0 <= j < |f.columns| && f.columns[j].name != name :: r.columns[j] == f.columns[j]
  {
    var k := IndexOf(Names(f), name);
    if k.Some? then
      var r := Frame(f.index, f.columns[k.value := Column(name, values)]);
      assert Names(r) == Names(f);
      r
    else
      var r := Frame(f.index, f.columns + [Column(name, values)]);
      assert Names(r) == Names(f) + [name];
      IndexOfAppended(Names(f), name);
      r
  }

  lemma IndexOfAppended(names: seq<string>, name: string)
    requires name !in names
    ensures IndexOf(names + [name], name) == Some(|names|)
  {
  }

  /** `df[name] = values` with pandas' length check. */
  function Assign(f: Frame, name: string, values: seq<Snr>): (r: Result<Frame, StatsError>)
    requires WellFormed(f)
    ensures r.Success? <==> |values| == |f.index|
    ensures r.Success? ==> r.value == SetColumn(f, name, values)
  {
    if |values| != |f.index| then Failure(LengthMismatch(name)) else Success(SetColumn(f, name, values))
  }

  // ---------------------------------------------------------------------
  // Assembly of the stage table
  // ---------------------------------------------------------------------

  function FileAt(load: string -> H5File, k: nat): H5File
    requires k < |FilePaths|
  {
    load(FilePaths[k] + FileName)
  }

  /** The dataset `key` of stage file k has the shape the assembly needs:
      36 values once flattened, or for SSP 36 rows of at least 2 columns. */
  predicate KeyFits(load: string -> H5File, k: nat, key: string)
    requires k < |FilePaths|
  {
    key in FileAt(load, k) &&
    if k == SspFile then
      |FileAt(load, k)[key]| == HeartSnr.SubjectCount && ColumnAt(FileAt(load, k)[key], 1).Some?
    else |Flatten(FileAt(load, k)[key])| == HeartSnr.SubjectCount
  }

  predicate FileFits(load: string -> H5File, k: nat)
    requires k < |FilePaths|
  {
    KeyFits(load, k, Keywords[0]) && KeyFits(load, k, Keywords[1])
  }

  /** The first n stage files all fit. */
  predicate FitsBefore(load: string -> H5File, n: nat)
    requires n <= |FilePaths|
  {
    forall k | 0 <= k < n :: FileFits(load, k)
  }

  predicate FilesFit(load: string -> H5File) {
    FitsBefore(load, |FilePaths|)
  }

  lemma FitsBeforeStep(load: string -> H5File, n: nat)
    requires n < |FilePaths| && FitsBefore(load, n) && FileFits(load, n)
    ensures FitsBefore(load, n + 1)
  {
  }

  /** The stage file that supplies column j of the table. */
  function SourceFile(j: nat): nat { if j < SspFile then j else SspFile }

  /** The values column j of the table for `key` must hold: the flattened
      dataset of a single-column stage, or column 0 (SSP_5) and column 1
      (SSP_6) of the SSP matrix. */
  function StageColumn(load: string -> H5File, key: string, j: nat): seq<Snr>
    requires j < |ColumnNames| && KeyFits(load, SourceFile(j), key)
  {
    if j < SspFile then Flatten(FileAt(load, j)[key])
    else ColumnAt(FileAt(load, SspFile)[key], j - SspFile).value
  }

  /** The first n columns of the table for `key` are in place. */
  predicate TablePrefix(f: Frame, load: string -> H5File, key: string, n: nat)
  {
    && n <= |ColumnNames|
    && f.index == SubjectIndex
    && |f.columns| == n
    && forall j | 0 <= j < n ::
         KeyFits(load, SourceFile(j), key) && f.columns[j] == Column(ColumnNames[j], StageColumn(load, key, j))
  }

  /** The table for `key` after all five stage files. */
  predicate StageTable(f: Frame, load: string -> H5File, key: string) {
    TablePrefix(f, load, key, |ColumnNames|)
  }

  lemma ColumnNamesDistinct()
    ensures Distinct(ColumnNames)
  {
  }

  lemma StageTableShape(f: Frame, load: string -> H5File, key: string)
    requires StageTable(f, load, key)
    ensures WellFormed(f) && Names(f) == ColumnNames && Distinct(Names(f))
    ensures f.index == SubjectIndex
  {
    forall j | 0 <= j < |f.columns|
      ensures |f.columns[j].values| == |f.index|
    {
      var m := FileAt(load, SourceFile(j))[key];
      if j >= SspFile {
        assert |ColumnAt(m, j - SspFile).value| == |m|;
      }
    }
    assert Names(f) == ColumnNames;
    ColumnNamesDistinct();
  }

  /** The columns the script adds for one stage file (the prepared stage's
      column starts the table). */
  function AddStage(f: Frame, file: H5File, key: string, k: nat, count: nat): (r: Result<Frame, StatsError>)
    requires k < |FilePaths| && count < |StageNames|
    requires WellFormed(f)
    ensures key !in file ==> r == Failure(KeyMissing(key))
    ensures r.Success? ==> WellFormed(r.value)
  {
    if key !in file then Failure(KeyMissing(key))
    else if FilePaths[k] == PrepPath then
      var v := Flatten(file[key]);
      if |v| != HeartSnr.SubjectCount then Failure(LengthMismatch("Prep"))
      else Success(Frame(SubjectIndex, [Column("Prep", v)]))
    else if FilePaths[k] == SspPath then
      var m := file[key];
      var c0 := ColumnAt(m, 0);
      if c0.None? then Failure(ColumnOutOfRange(0))
      else
        var f5 :- Assign(f, StageNames[count] + "_5", c0.value);
        var c1 := ColumnAt(m, 1);
        if c1.None? then Failure(ColumnOutOfRange(1))
        else Assign(f5, StageNames[count] + "_6", c1.value)
    else
      Assign(f, StageNames[count], Flatten(file[key]))
  }

  function ColumnsAfter(files: nat): nat { if files <= SspFile then files else |ColumnNames| }

  /** The prepared stage's step starts the table with its one column. */
  lemma AddPrepStep(f: Frame, load: string -> H5File, key: string)
    requires WellFormed(f)
    ensures var r := AddStage(f, FileAt(load, 0), key, 0, 0);
      && (r.Success? <==> KeyFits(load, 0, key))
      && (r.Success? ==> TablePrefix(r.value, load, key, 1) && WellFormed(r.value))
  {
    assert FilePaths[0] == PrepPath;
  }

  /** The PCA, ICA and post-ICA steps each append their one column. */
  lemma AddMiddleStep(f: Frame, load: string -> H5File, key: string, k: nat)
    requires 0 < k < SspFile && TablePrefix(f, load, key, k) && WellFormed(f)
    ensures var r := AddStage(f, FileAt(load, k), key, k, k);
      && (r.Success? <==> KeyFits(load, k, key))
      && (r.Success? ==> TablePrefix(r.value, load, key, k + 1) && WellFormed(r.value))
  {
    var file := FileAt(load, k);
    assert FilePaths[k] != PrepPath && FilePaths[k] != SspPath;
    if key in file {
      ColumnNamesDistinct();
      assert StageNames[k] == ColumnNames[k];
      assert Names(f) == ColumnNames[..k];
      assert ColumnNames[k] !in Names(f);
    }
  }

  /** The SSP step appends SSP_5 and SSP_6, columns 0 and 1 of its
      matrix. */
  lemma AddSspStep(f: Frame, load: string -> H5File, key: string)
    requires TablePrefix(f, load, key, SspFile) && WellFormed(f)
    ensures var r := AddStage(f, FileAt(load, SspFile), key, SspFile, SspFile);
      && (r.Success? <==> KeyFits(load, SspFile, key))
      && (r.Success? ==> TablePrefix(r.value, load, key, |ColumnNames|) && WellFormed(r.value))
  {
    var file := FileAt(load, SspFile);
    assert FilePaths[SspFile] == SspPath && FilePaths[SspFile] != PrepPath;
    if key in file {
      var m := file[key];
      ColumnNamesDistinct();
      assert StageNames[SspFile] + "_5" == ColumnNames[4] && StageNames[SspFile] + "_6" == ColumnNames[5];
      assert Names(f) == ColumnNames[..4];
      if ColumnAt(m, 1).Some? && |m| == HeartSnr.SubjectCount {
        var f5 := SetColumn(f, ColumnNames[4], ColumnAt(m, 0).value);
        assert Names(f5) == ColumnNames[..5];
        assert ColumnNames[5] !in Names(f5);
      }
    }
  }

  /** One stage file's step extends the table prefix by its columns, and
      fails exactly when the file does not fit. */
  lemma AddStageStep(f: Frame, load: string -> H5File, key: string, k: nat)
    requires k < |FilePaths| && (k == 0 || TablePrefix(f, load, key, ColumnsAfter(k)))
    requires WellFormed(f)
    ensures var r := AddStage(f, FileAt(load, k), key, k, k);
      && (r.Success? <==> KeyFits(load, k, key))
      && (r.Success? ==> TablePrefix(r.value, load, key, ColumnsAfter(k + 1)) && WellFormed(r.value))
  {
    if k == 0 {
      AddPrepStep(f, load, key);
    } else if k == SspFile {
      AddSspStep(f, load, key);
    } else {
      AddMiddleStep(f, load, key, k);
    }
  }

  /** The loop over the stage files. `count` advances once per file, so the
      stage name and the file path stay in step. On success both tables
      have the subjects 1..36 as index and the columns Prep, PCA, ICA,
      Post-ICA, SSP_5, SSP_6, each taken from its own stage file. */
  method AssembleTables(load: string -> H5File) returns (r: Result<(Frame, Frame), StatsError>)
    ensures r.Success? <==> FilesFit(load)
    ensures r.Success? ==> StageTable(r.value.0, load, Keywords[0]) && StageTable(r.value.1, load, Keywords[1])
  {
    var med := Frame([], []);
    var tib := Frame([], []);
    var count := 0;
    var i := 0;
    while i < |FilePaths|
      invariant 0 <= i <= |FilePaths| && count == i
      invariant FitsBefore(load, i)
      invariant WellFormed(med) && WellFormed(tib)
      invariant i > 0 ==> TablePrefix(med, load, Keywords[0], ColumnsAfter(i))
      invariant i > 0 ==> TablePrefix(tib, load, Keywords[1], ColumnsAfter(i))
    {
      var file := load(FilePaths[i] + FileName);
      assert file == FileAt(load, i);
      AddStageStep(med, load, Keywords[0], i);
      AddStageStep(tib, load, Keywords[1], i);
      var newMed := AddStage(med, file, Keywords[0], i, count);
      if newMed.Failure? {
        assert !FileFits(load, i);
        return Failure(newMed.error);
      }
      var newTib := AddStage(tib, file, Keywords[1], i, count);
      if newTib.Failure? {
        assert !FileFits(load, i);
        return Failure(newTib.error);
      }
      FitsBeforeStep(load, i);
      med, tib := newMed.value, newTib.value;
      count := count + 1;
      i := i + 1;
    }
    return Success((med, tib));
  }

  // ---------------------------------------------------------------------
  // dropna
  // ---------------------------------------------------------------------

  /** Row i has a value in every column. */
  predicate Complete(f: Frame, i: nat)
    requires WellFormed(f) && i < |f.index|
  {
    forall j | 0 <= j < |f.columns| :: f.columns[j].values[i].Some?
  }

  predicate StrictlyIncreasing(s: seq<nat>) {
    forall a, b | 0 <= a < b < |s| :: s[a] < s[b]
  }

  /** The positions, among the first n rows, of the complete rows, in
      order. */
  function KeptRows(f: Frame, n: nat): (kept: seq<nat>)
    requires WellFormed(f) && n <= |f.index|
    ensures forall k | 0 <= k < |kept| :: kept[k] < n && Complete(f, kept[k])
    ensures forall i | 0 <= i < n && Complete(f, i) :: i in kept
    ensures StrictlyIncreasing(kept)
  {
    if n == 0 then []
    else KeptRows(f, n - 1) + if Complete(f, n - 1) then [n - 1] else []
  }

  /** `df.dropna()`: the rows with no missing value. */
  function DropNa(f: Frame): (r: Frame)
    requires WellFormed(f)
    ensures WellFormed(r) && Names(r) == Names(f)
    ensures var kept := KeptRows(f, |f.index|);
      && |r.index| == |kept|
      && forall k | 0 <= k < |kept| ::
           && r.index[k] == f.index[kept[k]]
           && forall j | 0 <= j < |f.columns| :: r.columns[j].values[k] == f.columns[j].values[kept[k]]
  {
    var kept := KeptRows(f, |f.index|);
    var r := Frame(seq(|kept|, k requires 0 <= k < |kept| => f.index[kept[k]]),
                   seq(|f.columns|, j requires 0 <= j < |f.columns| =>
                         Column(f.columns[j].name,
                                seq(|kept|, k requires 0 <= k < |kept| => f.columns[j].values[kept[k]]))));
    assert Names(r) == Names(f);
    r
  }

  /** A row survives dropna exactly when it is complete; the survivors
      keep their subject index, their values and their relative order, and
      the result has no missing value left. */
  lemma DropNaKeepsExactlyCompleteRows(f: Frame, i: nat)
    requires WellFormed(f) && i < |f.index|
    ensures Complete(f, i) <==> i in KeptRows(f, |f.index|)
    ensures forall k | 0 <= k < |DropNa(f).index| :: Complete(DropNa(f), k)
  {
  }

  // ---------------------------------------------------------------------
  // Pairs of columns
  // ---------------------------------------------------------------------

  /** The pairs (a, b) for each b of `rest`, in order. */
  function Fan(a: string, rest: seq<string>): (ps: seq<(string, string)>)
    ensures |ps| == |rest| && forall k | 0 <= k < |rest| :: ps[k] == (a, rest[k])
  {
    seq(|rest|, k requires 0 <= k < |rest| => (a, rest[k]))
  }

  /** `itertools.combinations(cols, 2)`: every pair of positions i < j, in
      lexicographic order of positions. */
  function Pairs(cols: seq<string>): seq<(string, string)>
  {
    if cols == [] then [] else Fan(cols[0], cols[1..]) + Pairs(cols[1..])
  }

  lemma StepDown(n: int)
    ensures n * (n - 1) == (n - 1) * (n - 1 - 1) + 2 * (n - 1)
  {
  }

  /** Every pair is made of two of the columns. */
  lemma {:induction false} PairsIn(cols: seq<string>)
    ensures forall p | p in Pairs(cols) :: p.0 in cols && p.1 in cols
    decreases |cols|
  {
    if cols != [] {
      PairsIn(cols[1..]);
    }
  }

  /** Every pair of positions i < j is among the pairs. */
  lemma {:induction false} PairsComplete(cols: seq<string>, i: nat, j: nat)
    requires i < j < |cols|
    ensures (cols[i], cols[j]) in Pairs(cols)
    decreases |cols|
  {
    if i == 0 {
      assert Fan(cols[0], cols[1..])[j - 1] == (cols[i], cols[j]);
    } else {
      PairsComplete(cols[1..], i - 1, j - 1);
    }
  }

  /** Every pair is the pair of two positions i < j. */
  lemma {:induction false} PairsSound(cols: seq<string>, p: (string, string))
    requires p in Pairs(cols)
    ensures exists i, j | 0 <= i < j < |cols| :: p == (cols[i], cols[j])
    decreases |cols|
  {
    var rest := cols[1..];
    if p in Fan(cols[0], rest) {
      var k :| 0 <= k < |rest| && Fan(cols[0], rest)[k] == p;
      assert p == (cols[0], cols[k + 1]);
    } else {
      PairsSound(rest, p);
      var i, j :| 0 <= i < j < |rest| && p == (rest[i], rest[j]);
      assert p == (cols[i + 1], cols[j + 1]);
    }
  }

  /** combinations of n columns taken two at a time: n(n-1)/2 pairs. */
  lemma {:induction false} PairsCount(cols: seq<string>)
    ensures 2 * |Pairs(cols)| == |cols| * (|cols| - 1)
    decreases |cols|
  {
    if cols != [] {
      var n, rest := |cols|, cols[1..];
      PairsCount(rest);
      assert |rest| == n - 1 && |Pairs(cols)| == (n - 1) + |Pairs(rest)|;
      StepDown(n);
    }
  }

  /** `[el for el in ps if el[0] == m]`. */
  function FirstIs(ps: seq<(string, string)>, m: string): (r: seq<(string, string)>)
    ensures forall p | p in r :: p in ps && p.0 == m
    ensures forall i | 0 <= i < |ps| && ps[i].0 == m :: ps[i] in r
  {
    if ps == [] then [] else (if ps[0].0 == m then [ps[0]] else []) + FirstIs(ps[1..], m)
  }

  /** The contrast pairs for anchor m. */
  function AnchorPairs(cols: seq<string>, m: string): (ps: seq<(string, string)>)
    ensures forall p | p in ps :: p.0 == m && p.1 in cols
  {
    PairsIn(cols);
    FirstIs(Pairs(cols), m)
  }

  lemma {:induction false} FirstIsConcat(a: seq<(string, string)>, b: seq<(string, string)>, m: string)
    ensures FirstIs(a + b, m) == FirstIs(a, m) + FirstIs(b, m)
    decreases |a|
  {
    if a != [] {
      var head := if a[0].0 == m then [a[0]] else [];
      assert (a + b)[0] == a[0] && (a + b)[1..] == a[1..] + b;
      calc {
        FirstIs(a + b, m);
        head + FirstIs(a[1..] + b, m);
        { FirstIsConcat(a[1..], b, m); }
        head + (FirstIs(a[1..], m) + FirstIs(b, m));
        (head + FirstIs(a[1..], m)) + FirstIs(b, m);
        FirstIs(a, m) + FirstIs(b, m);
      }
    } else {
      assert a + b == b;
    }
  }

  lemma {:induction false} FirstIsFan(a: string, rest: seq<string>, m: string)
    ensures FirstIs(Fan(a, rest), m) == if a == m then Fan(a, rest) else []
    decreases |rest|
  {
    if rest != [] {
      assert Fan(a, rest)[1..] == Fan(a, rest[1..]);
      FirstIsFan(a, rest[1..], m);
    }
  }

  lemma {:induction false} PairsFirstIn(cols: seq<string>)
    ensures forall p | p in Pairs(cols) :: p.0 in cols
    decreases |cols|
  {
    if cols != [] {
      PairsFirstIn(cols[1..]);
    }
  }

  lemma {:induction false} FirstIsNone(ps: seq<(string, string)>, m: string)
    requires forall p | p in ps :: p.0 != m
    ensures FirstIs(ps, m) == []
    decreases |ps|
  {
    if ps != [] {
      FirstIsNone(ps[1..], m);
    }
  }

  /** With distinct column names, the pairs anchored at m are (m, c) for
      each column c after m, in column order; none when m is no column. */
  lemma {:induction false} AnchorPairsAreLaterColumns(cols: seq<string>, m: string)
    requires Distinct(cols)
    ensures m !in cols ==> AnchorPairs(cols, m) == []
    ensures forall k | 0 <= k < |cols| && cols[k] == m :: AnchorPairs(cols, m) == Fan(m, cols[k + 1..])
    decreases |cols|
  {
    if cols != [] {
      var rest := cols[1..];
      assert Distinct(rest);
      FirstIsConcat(Fan(cols[0], rest), Pairs(rest), m);
      FirstIsFan(cols[0], rest, m);
      AnchorPairsAreLaterColumns(rest, m);
      if cols[0] == m {
        PairsFirstIn(rest);
        assert m !in rest;
        FirstIsNone(Pairs(rest), m);
        assert AnchorPairs(cols, m) == Fan(m, rest);
      }
      forall k | 0 <= k < |cols| && cols[k] == m
        ensures AnchorPairs(cols, m) == Fan(m, cols[k + 1..])
      {
        if k > 0 {
          assert cols[0] != m;
          assert rest[k - 1] == m && rest[k..] == cols[k + 1..];
        }
      }
    }
  }

  /** On the stage table, Prep is contrasted with the five later stages. */
  lemma PrepAnchorPairs()
    ensures AnchorPairs(ColumnNames, "Prep")
            == [("Prep", "PCA"), ("Prep", "ICA"), ("Prep", "Post-ICA"), ("Prep", "SSP_5"), ("Prep", "SSP_6")]
  {
    ColumnNamesDistinct();
    AnchorPairsAreLaterColumns(ColumnNames, "Prep");
    FanOfFive("Prep", "PCA", "ICA", "Post-ICA", "SSP_5", "SSP_6");
    assert ColumnNames[0] == "Prep" && ColumnNames[1..] == ["PCA", "ICA", "Post-ICA", "SSP_5", "SSP_6"];
  }

  /** On the stage table, PCA is contrasted with the four stages after it. */
  lemma PcaAnchorPairs()
    ensures AnchorPairs(ColumnNames, "PCA")
            == [("PCA", "ICA"), ("PCA", "Post-ICA"), ("PCA", "SSP_5"), ("PCA", "SSP_6")]
  {
    ColumnNamesDistinct();
    AnchorPairsAreLaterColumns(ColumnNames, "PCA");
    FanOfFour("PCA", "ICA", "Post-ICA", "SSP_5", "SSP_6");
    assert ColumnNames[1] == "PCA" && ColumnNames[2..] == ["ICA", "Post-ICA", "SSP_5", "SSP_6"];
  }

  lemma FanOfFour(m: string, a: string, b: string, c: string, d: string)
    ensures Fan(m, [a, b, c, d]) == [(m, a), (m, b), (m, c), (m, d)]
  {
  }

  lemma FanOfFive(m: string, a: string, b: string, c: string, d: string, e: string)
    ensures Fan(m, [a, b, c, d, e]) == [(m, a), (m, b), (m, c), (m, d), (m, e)]
  {
  }

  /** No contrast ever runs backwards: with distinct column names, the
      anchor at position j is never paired with a column before it (so on
      the stage table there is no `PCA-Prep`). */
  lemma NoBackwardContrast(cols: seq<string>, i: nat, j: nat)
    requires Distinct(cols) && i < j < |cols|
    ensures (cols[j], cols[i]) !in AnchorPairs(cols, cols[j])
  {
    AnchorPairsAreLaterColumns(cols, cols[j]);
  }

  // ---------------------------------------------------------------------
  // Difference columns and labels
  // ---------------------------------------------------------------------

  /** `b.sub(a)` for one row: NaN when either value is missing. */
  function Difference(a: Snr, b: Snr): (d: Snr)
    ensures d.Some? <==> a.Some? && b.Some?
    ensures d.Some? ==> a.value + d.value == b.value
  {
    if a.Some? && b.Some? then Some(b.value - a.value) else None
  }

  /** `'-'.join(p)`. */
  function Label(p: (string, string)): (s: string)
    ensures |s| == |p.0| + 1 + |p.1|
    ensures s[..|p.0|] == p.0 && s[|p.0|] == '-' && s[|p.0| + 1..] == p.1
  {
    p.0 + "-" + p.1
  }

  /** Two pairs with the same anchor get the same label only if they are
      the same pair. */
  lemma LabelInjective(m: string, a: string, b: string)
    requires Label((m, a)) == Label((m, b))
    ensures a == b
  {
    assert a == Label((m, a))[|m| + 1..];
  }

  /** The difference column for pair p: second column minus first. */
  function ContrastColumn(f: Frame, p: (string, string)): (c: Column)
    requires WellFormed(f) && p.0 in Names(f) && p.1 in Names(f)
    ensures c.name == Label(p) && |c.values| == |f.index|
  {
    var a, b := ColumnNamed(f, p.0).value, ColumnNamed(f, p.1).value;
    assert |a| == |f.index| && |b| == |f.index| by {
      var ia, ib := IndexOf(Names(f), p.0).value, IndexOf(Names(f), p.1).value;
      assert a == f.columns[ia].values && b == f.columns[ib].values;
    }
    Column(Label(p), seq(|f.index|, i requires 0 <= i < |f.index| => Difference(a[i], b[i])))
  }

  /** The concatenated difference frame for anchor m, with the joined
      labels as column names; pandas refuses to concatenate no columns. */
  function Contrasts(f: Frame, m: string): (r: Result<Frame, StatsError>)
    requires WellFormed(f)
    ensures r.Success? <==> AnchorPairs(Names(f), m) != []
    ensures r.Success? ==> WellFormed(r.value) && r.value.index == f.index
    ensures r.Success? ==> var ps := AnchorPairs(Names(f), m);
      |r.value.columns| == |ps| && forall k | 0 <= k < |ps| :: r.value.columns[k].name == Label(ps[k])
  {
    var ps := AnchorPairs(Names(f), m);
    if ps == [] then Failure(NoObjectsToConcatenate)
    else
      PairsIn(Names(f));
      Success(Frame(f.index, seq(|ps|, k requires 0 <= k < |ps| => ContrastColumn(f, ps[k]))))
  }

  /** The difference column of two columns of a frame with distinct
      names, found by name. */
  lemma ContrastColumnAt(g: Frame, a: nat, b: nat)
    requires WellFormed(g) && Distinct(Names(g)) && a < |g.columns| && b < |g.columns|
    ensures var c := ContrastColumn(g, (g.columns[a].name, g.columns[b].name));
      && c.name == g.columns[a].name + "-" + g.columns[b].name
      && |c.values| == |g.index|
      && forall i | 0 <= i < |g.index| ::
           c.values[i] == Difference(g.columns[a].values[i], g.columns[b].values[i])
  {
    var names := Names(g);
    IndexOfDistinct(names, a);
    IndexOfDistinct(names, b);
    assert ColumnNamed(g, names[a]).value == g.columns[a].values;
    assert ColumnNamed(g, names[b]).value == g.columns[b].values;
  }

  /** With distinct names, the contrasts for the anchor in column a are the
      columns after a, in order, each minus the anchor, labelled
      `anchor-column`; there are none (and concatenation fails) when a is
      the last column. */
  lemma ContrastsAreLaterMinusAnchor(g: Frame, a: nat)
    requires WellFormed(g) && Distinct(Names(g)) && a < |g.columns|
    ensures var r := Contrasts(g, g.columns[a].name);
      && (r.Success? <==> a + 1 < |g.columns|)
      && (r.Success? ==>
            && |r.value.columns| == |g.columns| - (a + 1)
            && forall k | 0 <= k < |r.value.columns| ::
                 r.value.columns[k] == ContrastColumn(g, (g.columns[a].name, g.columns[a + 1 + k].name)))
  {
    var names := Names(g);
    var m := names[a];
    AnchorPairsAreLaterColumns(names, m);
    var ps := AnchorPairs(names, m);
    assert ps == Fan(m, names[a + 1..]);
    var r := Contrasts(g, m);
    if r.Success? {
      forall k | 0 <= k < |r.value.columns|
        ensures r.value.columns[k] == ContrastColumn(g, (m, g.columns[a + 1 + k].name))
      {
        assert ps[k] == (m, names[a + 1 + k]);
      }
    }
  }

  /** On a row where both columns have a value, their difference column
      holds the second minus the first. */
  lemma ContrastColumnOnCompleteRow(g: Frame, a: nat, b: nat, i: nat)
    requires WellFormed(g) && Distinct(Names(g)) && a < |g.columns| && b < |g.columns|
    requires i < |g.index| && g.columns[a].values[i].Some? && g.columns[b].values[i].Some?
    ensures ContrastColumn(g, (g.columns[a].name, g.columns[b].name)).values[i]
            == Some(g.columns[b].values[i].value - g.columns[a].values[i].value)
  {
    ContrastColumnAt(g, a, b);
  }

  /** Contrast k for the anchor in column a is the difference column of
      the anchor and column a + 1 + k, labelled `anchor-column`. */
  lemma ContrastAt(g: Frame, a: nat, k: nat)
    requires WellFormed(g) && Distinct(Names(g)) && a + 1 + k < |g.columns|
    ensures var r := Contrasts(g, g.columns[a].name);
      && r.Success? && |r.value.columns| == |g.columns| - (a + 1)
      && r.value.columns[k] == ContrastColumn(g, (g.columns[a].name, g.columns[a + 1 + k].name))
      && r.value.columns[k].name == g.columns[a].name + "-" + g.columns[a + 1 + k].name
  {
    ContrastsAreLaterMinusAnchor(g, a);
    ContrastColumnAt(g, a, a + 1 + k);
  }

  /** On a complete row, each contrast column for the anchor in column a
      holds the later stage's value minus the anchor's value, with no value
      missing; dropna leaves only such rows (DropNaKeepsExactlyCompleteRows). */
  lemma ContrastsOfCompleteRow(g: Frame, a: nat, k: nat, i: nat)
    requires WellFormed(g) && Distinct(Names(g)) && a + 1 + k < |g.columns|
    requires i < |g.index| && Complete(g, i)
    ensures var r := Contrasts(g, g.columns[a].name);
      && r.Success? && |r.value.columns| == |g.columns| - (a + 1)
      && r.value.columns[k].name == g.columns[a].name + "-" + g.columns[a + 1 + k].name
      && r.value.columns[k].values[i]
         == Some(g.columns[a + 1 + k].values[i].value - g.columns[a].values[i].value)
  {
    ContrastAt(g, a, k);
    ContrastColumnOnCompleteRow(g, a, a + 1 + k, i);
  }

  lemma IndexOfDistinct(names: seq<string>, j: nat)
    requires Distinct(names) && j < |names|
    ensures IndexOf(names, names[j]) == Some(j)
  {
  }

  /** `to_numpy()`: row i, column k. */
  function ToMatrix(f: Frame): (arr: seq<seq<Snr>>)
    requires WellFormed(f)
    ensures |arr| == |f.index|
    ensures forall i | 0 <= i < |f.index| ::
              |arr[i]| == |f.columns| && forall k | 0 <= k < |f.columns| :: arr[i][k] == f.columns[k].values[i]
  {
    seq(|f.index|, i requires 0 <= i < |f.index| =>
      seq(|f.columns|, k requires 0 <= k < |f.columns| => f.columns[k].values[i]))
  }

  // ---------------------------------------------------------------------
  // Pairing labels with p-values
  // ---------------------------------------------------------------------

  /** A dict in insertion order. */
  type PTable = seq<(string, real)>

  function Keys(d: PTable): (ks: seq<string>)
    ensures |ks| == |d| && forall i | 0 <= i < |d| :: ks[i] == d[i].0
  {
    seq(|d|, i requires 0 <= i < |d| => d[i].0)
  }

  /** `d.update({key: v})`: overwrite in place when the key is present,
      otherwise append. */
  function Put(d: PTable, key: string, v: real): (r: PTable)
    requires Distinct(Keys(d))
    ensures Distinct(Keys(r))
    ensures key in Keys(d) ==> |r| == |d| && Keys(r) == Keys(d)
    ensures key !in Keys(d) ==> r == d + [(key, v)]
    ensures forall i | 0 <= i < |r| :: r[i] == if r[i].0 == key then (key, v) else d[i]
  {
    var k := IndexOf(Keys(d), key);
    if k.Some? then
      var r := d[k.value := (key, v)];
      assert Keys(r) == Keys(d);
      r
    else
      var r := d + [(key, v)];
      assert Keys(r) == Keys(d) + [key];
      r
  }

  /** The dict after updating it with (names[i], p[i]) for i = 0..|p|-1. */
  function PValueTable(names: seq<string>, p: seq<real>): (d: PTable)
    requires |p| <= |names|
    ensures Distinct(Keys(d))
  {
    if p == [] then [] else Put(PValueTable(names, p[..|p| - 1]), names[|p| - 1], p[|p| - 1])
  }

  /** The loop filling `formatted_pvals`; a p-value without a column name
      is numpy's IndexError. */
  method FormatPValues(names: seq<string>, p: seq<real>) returns (r: Result<PTable, StatsError>)
    ensures r.Success? <==> |p| <= |names|
    ensures r.Success? ==> r.value == PValueTable(names, p)
  {
    var d: PTable := [];
    var index := 0;
    while index < |p|
      invariant 0 <= index <= |p|
      invariant index <= |names| && d == PValueTable(names, p[..index])
    {
      if index >= |names| {
        return Failure(NameIndexOutOfRange(index));
      }
      assert p[..index + 1][..index] == p[..index];
      d := Put(d, names[index], p[index]);
      index := index + 1;
    }
    assert p[..index] == p;
    return Success(d);
  }

  /** With distinct labels, the i-th label is paired with the i-th p-value
      and there is one entry per label. */
  lemma {:induction false} PValueTablePairs(names: seq<string>, p: seq<real>)
    requires |p| <= |names| && Distinct(names)
    ensures var d := PValueTable(names, p);
      |d| == |p| && forall i | 0 <= i < |p| :: d[i] == (names[i], p[i])
    decreases |p|
  {
    if p != [] {
      var q := p[..|p| - 1];
      PValueTablePairs(names, q);
    }
  }

  // ---------------------------------------------------------------------
  // The tests per condition and anchor
  // ---------------------------------------------------------------------

  const TestConditions: seq<string> := ["median", "tibial"]
  const Anchors: seq<string> := ["Prep", "PCA"]

  datatype Report = Report(condition: string, anchor: string, pvalues: PTable)

  /** The p-value table for one frame and anchor, given the permutation
      test as a function from the difference matrix to one p-value per
      column. */
  function TestReport(df: Frame, m: string, permTest: seq<seq<Snr>> -> seq<real>): (r: Result<PTable, StatsError>)
    requires WellFormed(df)
    ensures AnchorPairs(Names(df), m) == [] ==> r == Failure(NoObjectsToConcatenate)
    ensures r.Success? ==> Distinct(Keys(r.value))
  {
    var contrasts :- Contrasts(df, m);
    var p := permTest(ToMatrix(contrasts));
    if |p| <= |contrasts.columns| then Success(PValueTable(Names(contrasts), p))
    else Failure(NameIndexOutOfRange(|contrasts.columns|))
  }

  /** With distinct stage names, the labels of the contrasts for the anchor
      in column a are distinct too. */
  lemma ContrastLabelsDistinct(g: Frame, a: nat)
    requires WellFormed(g) && Distinct(Names(g)) && a + 1 < |g.columns|
    ensures Contrasts(g, g.columns[a].name).Success?
    ensures Distinct(Names(Contrasts(g, g.columns[a].name).value))
  {
    var m := g.columns[a].name;
    ContrastsAreLaterMinusAnchor(g, a);
    var cs := Contrasts(g, m).value.columns;
    forall k1, k2 | 0 <= k1 < k2 < |cs|
      ensures cs[k1].name != cs[k2].name
    {
      ContrastColumnAt(g, a, a + 1 + k1);
      ContrastColumnAt(g, a, a + 1 + k2);
      if cs[k1].name == cs[k2].name {
        LabelInjective(m, g.columns[a + 1 + k1].name, g.columns[a + 1 + k2].name);
      }
    }
  }

  /** The report for the anchor in column a: it exists exactly when the
      test gives no more p-values than there are contrasts, and then its
      entry i pairs the label `anchor-stage` of the i-th later column with
      the i-th p-value. */
  lemma ReportPairs(g: Frame, a: nat, permTest: seq<seq<Snr>> -> seq<real>)
    requires WellFormed(g) && Distinct(Names(g)) && a + 1 < |g.columns|
    ensures var m := g.columns[a].name;
      && Contrasts(g, m).Success?
      && var p := permTest(ToMatrix(Contrasts(g, m).value));
         && (TestReport(g, m, permTest).Success? <==> |p| <= |g.columns| - (a + 1))
         && (TestReport(g, m, permTest).Success? ==>
               var d := TestReport(g, m, permTest).value;
               && |d| == |p|
               && forall i | 0 <= i < |p| :: d[i] == (m + "-" + g.columns[a + 1 + i].name, p[i]))
  {
    var m := g.columns[a].name;
    ContrastLabelsDistinct(g, a);
    ContrastsAreLaterMinusAnchor(g, a);
    var c := Contrasts(g, m).value;
    var p := permTest(ToMatrix(c));
    assert TestReport(g, m, permTest).Success? <==> |p| <= |c.columns|;
    if |p| <= |c.columns| {
      assert TestReport(g, m, permTest).value == PValueTable(Names(c), p);
      PValueTablePairs(Names(c), p);
      forall i | 0 <= i < |p|
        ensures Names(c)[i] == m + "-" + g.columns[a + 1 + i].name
      {
        ContrastColumnAt(g, a, a + 1 + i);
      }
    }
  }

  /** The frame a condition is tested on: the median table for median,
      the tibial table for tibial, each after dropna. */
  function TestFrame(med: Frame, tib: Frame, c: nat): (df: Frame)
    requires WellFormed(med) && WellFormed(tib) && c < |TestConditions|
    ensures WellFormed(df) && forall k | 0 <= k < |df.index| :: Complete(df, k)
    ensures Names(df) == Names(if c == 0 then med else tib)
    ensures df == DropNa(if c == 0 then med else tib)
  {
    if TestConditions[c] == "median" then DropNa(med) else DropNa(tib)
  }

  /** The inner loop for one condition: one report per anchor, Prep
      first, each from the same frame. */
  method TestCondition(df: Frame, condition: string, permTest: seq<seq<Snr>> -> seq<real>)
    returns (r: Result<seq<Report>, StatsError>)
    requires WellFormed(df)
    ensures r.Success? <==> forall a | 0 <= a < |Anchors| :: TestReport(df, Anchors[a], permTest).Success?
    ensures r.Success? ==>
              && |r.value| == |Anchors|
              && forall a | 0 <= a < |Anchors| ::
                   r.value[a] == Report(condition, Anchors[a], TestReport(df, Anchors[a], permTest).value)
  {
    var reports: seq<Report> := [];
    var a := 0;
    while a < |Anchors|
      invariant 0 <= a <= |Anchors| && |reports| == a
      invariant forall a' | 0 <= a' < a ::
                  && TestReport(df, Anchors[a'], permTest).Success?
                  && reports[a'] == Report(condition, Anchors[a'], TestReport(df, Anchors[a'], permTest).value)
    {
      var m := Anchors[a];
      var contrasts := Contrasts(df, m);
      if contrasts.Failure? {
        return Failure(contrasts.error);
      }
      var p := permTest(ToMatrix(contrasts.value));
      var table := FormatPValues(Names(contrasts.value), p);
      if table.Failure? {
        return Failure(table.error);
      }
      reports := reports + [Report(condition, m, table.value)];
      a := a + 1;
    }
    return Success(reports);
  }

  /** The loop over conditions: median before tibial, each condition
      tested on its own table after dropna; `r.value[c][a]` is the report
      for condition c and anchor a. */
  method RunTests(med: Frame, tib: Frame, permTest: seq<seq<Snr>> -> seq<real>)
    returns (r: Result<seq<seq<Report>>, StatsError>)
    requires WellFormed(med) && WellFormed(tib)
    ensures r.Success? <==>
              forall c, a | 0 <= c < |TestConditions| && 0 <= a < |Anchors| ::
                TestReport(TestFrame(med, tib, c), Anchors[a], permTest).Success?
    ensures r.Success? ==>
              && |r.value| == |TestConditions|
              && forall c | 0 <= c < |TestConditions| ::
                   && |r.value[c]| == |Anchors|
                   && forall a | 0 <= a < |Anchors| ::
                        r.value[c][a]
                        == Report(TestConditions[c], Anchors[a],
                                  TestReport(TestFrame(med, tib, c), Anchors[a], permTest).value)
  {
    var reports: seq<seq<Report>> := [];
    var c := 0;
    while c < |TestConditions|
      invariant 0 <= c <= |TestConditions| && |reports| == c
      invariant forall c' | 0 <= c' < c ::
                  && |reports[c']| == |Anchors|
                  && forall a | 0 <= a < |Anchors| ::
                       && TestReport(TestFrame(med, tib, c'), Anchors[a], permTest).Success?
                       && reports[c'][a]
                          == Report(TestConditions[c'], Anchors[a],
                                    TestReport(TestFrame(med, tib, c'), Anchors[a], permTest).value)
    {
      var condition := TestConditions[c];
      var df: Frame;
      if condition == "median" {
        df := DropNa(med);
      } else {
        assert condition == "tibial";
        df := DropNa(tib);
      }
      assert df == TestFrame(med, tib, c);
      var results := TestCondition(df, condition, permTest);
      if results.Failure? {
        return Failure(results.error);
      }
      reports := reports + [results.value];
      c := c + 1;
    }
    return Success(reports);
  }
}
