/** The data handling of the classification script: collecting the training descriptions from a
    directory walk, loading the test table, and labelling and splitting the test rows by the
    classifier's predictions. The vectorizer and the one-class classifier are outside the model;
    their predictions are an input. */
module Oneclass {
  import opened Wrappers
  import opened Seqs

  /** One cell of a parsed CSV table; `text` is the value's `str()` rendering. */
  datatype Cell = Null | Value(text: string)

  /** A table: column names and rows of cells. */
  datatype Table = Table(columns: seq<string>, rows: seq<seq<Cell>>)

  /** Every row has one cell per column, as in a data frame. */
  predicate Rectangular(t: Table)
  {
    forall i :: 0 <= i < |t.rows| ==> |t.rows[i]| == |t.columns|
  }

  /** A data frame. Its column names stand for distinct labels: `pd.read_csv` renames a
      repeated header (`description.1`), so a column lookup finds at most one column. */
  type Frame = t: Table | Rectangular(t) witness Table([], [])

  /** What `pd.read_csv` does with a file: raises, or returns a frame. */
  datatype ReadOutcome = ReadFailed(reason: string) | Parsed(frame: Frame)

  /** A file found by the walk: its name and what reading it would give. */
  datatype FileEntry = FileEntry(name: string, content: ReadOutcome)

  /** One step of `os.walk`: a directory and the files directly in it. */
  datatype WalkStep = WalkStep(root: string, files: seq<FileEntry>)

  /** A "Failed to read" message: the file's path and the exception text. */
  datatype Warning = Warning(path: string, reason: string)

  const DescriptionColumn := "description"
  const CsvSuffix := ".csv"
  const LabelColumn := "predicted_label"
  const ItoLabel := "ITO"
  const NonItoLabel := "Non-ITO"
  /** `str()` of a missing value. */
  const NullText := "nan"

  predicate EndsWith(s: string, suffix: string)
  {
    |suffix| <= |s| && s[|s| - |suffix|..] == suffix
  }

  predicate IsCsv(f: FileEntry)
  {
    EndsWith(f.name, CsvSuffix)
  }

  /** `os.path.join(root, name)` for a bare file name. */
  function JoinPath(root: string, name: string): string
  {
    if root == [] || EndsWith(root, "/") then root + name else root + "/" + name
  }

  /** The cells of column `k`, top to bottom. */
  function ColumnCells(t: Frame, k: nat): (cs: seq<Cell>)
    requires k < |t.columns|
  {
    seq(|t.rows|, i requires 0 <= i < |t.rows| => t.rows[i][k])
  }

  predicate IsPresent(c: Cell)
  {
    c.Value?
  }

  /** `.dropna().astype(str).tolist()`: the texts of the non-null cells, in order. */
  function NonNullTexts(cs: seq<Cell>): seq<string>
  {
    if cs == [] then []
    else (if cs[0].Value? then [cs[0].text] else []) + NonNullTexts(cs[1..])
  }

  /** Dropping nulls keeps exactly the texts of the non-null cells: one per non-null cell, and
      no text that is not in a cell. */
  lemma {:induction false} NonNullTextsExact(cs: seq<Cell>)
    ensures |NonNullTexts(cs)| == |Filter(cs, IsPresent)|
    ensures forall i :: 0 <= i < |NonNullTexts(cs)| ==> Value(NonNullTexts(cs)[i]) in cs
    ensures forall i :: 0 <= i < |cs| && cs[i].Value? ==> cs[i].text in NonNullTexts(cs)
  {
    if cs != [] {
      NonNullTextsExact(cs[1..]);
      var r := NonNullTexts(cs);
      var tail := NonNullTexts(cs[1..]);
      assert r == (if cs[0].Value? then [cs[0].text] else []) + tail;
      forall i | 0 <= i < |r| ensures Value(r[i]) in cs {
        if cs[0].Value? && i == 0 {
          assert r[0] == cs[0].text;
        } else {
          var d := if cs[0].Value? then 1 else 0;
          assert r[i] == tail[i - d];
          assert Value(tail[i - d]) in cs[1..];
        }
      }
      forall i | 0 <= i < |cs| && cs[i].Value? ensures cs[i].text in r {
        if i > 0 {
          assert cs[i] == cs[1..][i - 1];
        }
      }
    }
  }

  /** A file that yields descriptions: a `.csv` name, a table that parsed, and a `description`
      column. */
  predicate Usable(f: FileEntry)
  {
    IsCsv(f) && f.content.Parsed? && DescriptionColumn in f.content.frame.columns
  }

  /** The descriptions one file adds to the corpus. */
  function Contribution(f: FileEntry): seq<string>
  {
    if !IsCsv(f) then []
    else match f.content
      case ReadFailed(_) => []
      case Parsed(t) =>
        var k := IndexOf(t.columns, DescriptionColumn);
        if k < |t.columns| then NonNullTexts(ColumnCells(t, k)) else []
  }

  /** The non-null description cells of a usable file, counted independently of collection. */
  function DescriptionCount(f: FileEntry): nat
  {
    if Usable(f) then
      var t := f.content.frame;
      |Filter(ColumnCells(t, IndexOf(t.columns, DescriptionColumn)), IsPresent)|
    else 0
  }

  /** The warning one file produces: only a `.csv` file that fails to parse gives one. */
  function FileWarnings(root: string, f: FileEntry): seq<Warning>
  {
    if IsCsv(f) && f.content.ReadFailed? then [Warning(JoinPath(root, f.name), f.content.reason)] else []
  }

  /** The descriptions of the files of one directory, in order. */
  function CollectFiles(fs: seq<FileEntry>): seq<string>
  {
    FlatMap(fs, Contribution)
  }

  /** `FileWarnings` for the files of directory `root`. */
  function WarningsIn(root: string): FileEntry -> seq<Warning>
  {
    (f: FileEntry) => FileWarnings(root, f)
  }

  function FilesWarnings(root: string, fs: seq<FileEntry>): seq<Warning>
  {
    FlatMap(fs, WarningsIn(root))
  }

  function StepDescriptions(w: WalkStep): seq<string>
  {
    CollectFiles(w.files)
  }

  function StepWarnings(w: WalkStep): seq<Warning>
  {
    FilesWarnings(w.root, w.files)
  }

  /** The corpus of a whole walk: every directory's descriptions, in walk order. */
  function CollectWalk(walk: seq<WalkStep>): seq<string>
  {
    FlatMap(walk, StepDescriptions)
  }

  function WalkWarnings(walk: seq<WalkStep>): seq<Warning>
  {
    FlatMap(walk, StepWarnings)
  }

  /** `load_ito_descriptions`: the outer loop over the walk. A `.csv` file that fails to parse
      adds a warning and nothing else; the loop goes on with the next file. */
  method LoadItoDescriptions(walk: seq<WalkStep>) returns (descriptions: seq<string>, warnings: seq<Warning>)
    ensures descriptions == CollectWalk(walk)
    ensures warnings == WalkWarnings(walk)
  {
    descriptions, warnings := [], [];
    for i := 0 to |walk|
      invariant descriptions == CollectWalk(walk[..i])
      invariant warnings == WalkWarnings(walk[..i])
    {
      descriptions, warnings := VisitDirectory(walk[i], descriptions, warnings);
      WalkStepped(walk, i);
    }
    assert walk[..|walk|] == walk;
  }

  /** The inner loop of `load_ito_descriptions`: the files of one directory, in order. */
  method VisitDirectory(step: WalkStep, descriptions: seq<string>, warnings: seq<Warning>)
    returns (descriptions': seq<string>, warnings': seq<Warning>)
    ensures descriptions' == descriptions + CollectFiles(step.files)
    ensures warnings' == warnings + FilesWarnings(step.root, step.files)
  {
    descriptions', warnings' := descriptions, warnings;
    for j := 0 to |step.files|
      invariant descriptions' == descriptions + CollectFiles(step.files[..j])
      invariant warnings' == warnings + FilesWarnings(step.root, step.files[..j])
    {
      descriptions', warnings' := VisitFile(step.root, step.files[j], descriptions', warnings');
      FilesStep(step.root, step.files, j);
    }
    assert step.files[..|step.files|] == step.files;
  }

  /** The body of the inner loop for one file of directory `root`: a `.csv` file that fails
      to parse adds a warning, one that parses adds the non-null texts of its `description`
      column, and every other file is passed over. */
  method VisitFile(root: string, file: FileEntry, descriptions: seq<string>, warnings: seq<Warning>)
    returns (descriptions': seq<string>, warnings': seq<Warning>)
    ensures descriptions' == descriptions + Contribution(file)
    ensures warnings' == warnings + FileWarnings(root, file)
  {
    descriptions', warnings' := descriptions, warnings;
    if EndsWith(file.name, CsvSuffix) {
      var path := JoinPath(root, file.name);
      match file.content {
        case ReadFailed(reason) =>
          warnings' := warnings' + [Warning(path, reason)];
        case Parsed(df) =>
          var k := IndexOf(df.columns, DescriptionColumn);
          if k < |df.columns| {
            descriptions' := descriptions' + NonNullTexts(ColumnCells(df, k));
          }
      }
    }
    FileStepped(root, file);
  }

  /** What one file adds to the corpus and to the warnings, case by case. */
  lemma FileStepped(root: string, f: FileEntry)
    ensures !IsCsv(f) ==> Contribution(f) == [] && FileWarnings(root, f) == []
    ensures IsCsv(f) && f.content.ReadFailed? ==>
      Contribution(f) == [] && FileWarnings(root, f) == [Warning(JoinPath(root, f.name), f.content.reason)]
    ensures IsCsv(f) && f.content.Parsed? ==>
      (FileWarnings(root, f) == [] &&
       var t := f.content.frame;
       var k := IndexOf(t.columns, DescriptionColumn);
       Contribution(f) == if k < |t.columns| then NonNullTexts(ColumnCells(t, k)) else [])
  {
  }

  /** Collecting one more file of a directory. */
  lemma FilesStep(root: string, fs: seq<FileEntry>, j: nat)
    requires j < |fs|
    ensures CollectFiles(fs[..j + 1]) == CollectFiles(fs[..j]) + Contribution(fs[j])
    ensures FilesWarnings(root, fs[..j + 1]) == FilesWarnings(root, fs[..j]) + FileWarnings(root, fs[j])
  {
    FlatMapStep(fs, j, Contribution);
    FlatMapStep(fs, j, WarningsIn(root));
  }

  /** Collecting one more directory of the walk. */
  lemma WalkStepped(walk: seq<WalkStep>, i: nat)
    requires i < |walk|
    ensures CollectWalk(walk[..i + 1]) == CollectWalk(walk[..i]) + CollectFiles(walk[i].files)
    ensures WalkWarnings(walk[..i + 1]) == WalkWarnings(walk[..i]) + FilesWarnings(walk[i].root, walk[i].files)
  {
    FlatMapStep(walk, i, StepDescriptions);
    FlatMapStep(walk, i, StepWarnings);
  }

  /** A file that is not usable adds nothing, and the files after it are still collected. */
  lemma SkippedFileAddsNothing(before: seq<FileEntry>, f: FileEntry, after: seq<FileEntry>)
    requires !Usable(f)
    ensures CollectFiles(before + [f] + after) == CollectFiles(before) + CollectFiles(after)
  {
    assert Contribution(f) == [];
    FlatMapAppend(before + [f], after, Contribution);
    FlatMapAppend(before, [f], Contribution);
    FlatMapSingle(f, Contribution);
  }

  /** Only `.csv` files contribute: a directory's descriptions are unchanged when every other
      file is removed. */
  lemma {:induction false} FilesOnlyCsvContribute(fs: seq<FileEntry>)
    ensures CollectFiles(fs) == CollectFiles(Filter(fs, IsCsv))
  {
    if fs != [] {
      FilesOnlyCsvContribute(fs[1..]);
      if IsCsv(fs[0]) {
        var kept := Filter(fs, IsCsv);
        assert kept == [fs[0]] + Filter(fs[1..], IsCsv);
        assert kept[0] == fs[0] && kept[1..] == Filter(fs[1..], IsCsv);
      } else {
        assert Contribution(fs[0]) == [];
        assert Filter(fs, IsCsv) == Filter(fs[1..], IsCsv);
      }
    }
  }

  /** A directory's descriptions number as many as its usable files have non-null ones. */
  lemma {:induction false} FilesCollectedLength(fs: seq<FileEntry>)
    ensures |CollectFiles(fs)| == SumCounts(fs)
  {
    if fs != [] {
      FilesCollectedLength(fs[1..]);
      var f := fs[0];
      if Usable(f) {
        var t := f.content.frame;
        NonNullTextsExact(ColumnCells(t, IndexOf(t.columns, DescriptionColumn)));
      }
    }
  }

  function StepFiles(w: WalkStep): seq<FileEntry>
  {
    w.files
  }

  /** Every file the walk finds, directory by directory. */
  function WalkFiles(walk: seq<WalkStep>): seq<FileEntry>
  {
    FlatMap(walk, StepFiles)
  }

  /** The corpus of a walk is the collection of all the files it finds, in walk order. */
  lemma {:induction false} WalkCollectsItsFiles(walk: seq<WalkStep>)
    ensures CollectWalk(walk) == CollectFiles(WalkFiles(walk))
  {
    if walk != [] {
      WalkCollectsItsFiles(walk[1..]);
      FlatMapAppend(walk[0].files, WalkFiles(walk[1..]), Contribution);
    }
  }

  /** Only `.csv` files contribute: the corpus of the walk is unchanged when every other file
      is removed. */
  lemma OnlyCsvContributes(walk: seq<WalkStep>)
    ensures CollectWalk(walk) == CollectFiles(Filter(WalkFiles(walk), IsCsv))
  {
    WalkCollectsItsFiles(walk);
    FilesOnlyCsvContribute(WalkFiles(walk));
  }

  /** The corpus `load_ito_descriptions` returns has as many entries as all the usable files
      of the walk have non-null descriptions. */
  lemma CollectedLength(walk: seq<WalkStep>)
    ensures |CollectWalk(walk)| == SumCounts(WalkFiles(walk))
  {
    WalkCollectsItsFiles(walk);
    FilesCollectedLength(WalkFiles(walk));
  }

  function SumCounts(fs: seq<FileEntry>): nat
  {
    if fs == [] then 0 else DescriptionCount(fs[0]) + SumCounts(fs[1..])
  }

  /** Why the test table cannot be loaded. */
  datatype LoadError = ReadError(reason: string) | MissingColumn(column: string)

  /** `astype(str)`: a missing value becomes the text "nan". */
  function AsText(c: Cell): string
  {
    match c
    case Null => NullText
    case Value(s) => s
  }

  /** The test frame with its `description` column turned into text, and those texts. */
  datatype TestData = TestData(frame: Frame, texts: seq<string>)

  /** `load_test_data` up to the vectorizer: reading fails, the `description` column is
      missing, or every row is kept with its description rendered as text. */
  function LoadTestData(content: ReadOutcome): (r: Result<TestData, LoadError>)
    ensures content.ReadFailed? ==> r == Failure(ReadError(content.reason))
    ensures content.Parsed? ==> (r.Failure? <==> DescriptionColumn !in content.frame.columns)
    ensures r.Success? ==>
      var t := content.frame;
      var k := IndexOf(t.columns, DescriptionColumn);
      && |r.value.texts| == |t.rows|
      && r.value.frame.columns == t.columns
      && |r.value.frame.rows| == |t.rows|
      && forall i :: 0 <= i < |t.rows| ==>
           r.value.texts[i] == AsText(t.rows[i][k]) && r.value.frame.rows[i] == t.rows[i][k := Value(r.value.texts[i])]
  {
    match content
    case ReadFailed(reason) => Failure(ReadError(reason))
    case Parsed(t) =>
      var k := IndexOf(t.columns, DescriptionColumn);
      if k == |t.columns| then Failure(MissingColumn(DescriptionColumn))
      else
        var texts := seq(|t.rows|, i requires 0 <= i < |t.rows| => AsText(t.rows[i][k]));
        var rows := seq(|t.rows|, i requires 0 <= i < |t.rows| => t.rows[i][k := Value(texts[i])]);
        Success(TestData(Table(t.columns, rows), texts))
  }

  /** The predictions labelled "ITO", and the others. */
  predicate IsIto(p: int) { p == 1 }

  predicate IsNonIto(p: int) { p != 1 }

  /** The label of one prediction: "ITO" exactly for 1, "Non-ITO" for every other value. */
  function Label(p: int): (s: string)
    ensures s == ItoLabel <==> p == 1
    ensures s == NonItoLabel <==> p != 1
  {
    if p == 1 then ItoLabel else NonItoLabel
  }

  /** `t[name] = values`: overwrites an existing column, or appends a new last column. */
  function WithColumn(t: Frame, name: string, values: seq<Cell>): (r: Frame)
    requires |values| == |t.rows|
    ensures |r.rows| == |t.rows|
    ensures IndexOf(r.columns, name) < |r.columns|
    ensures forall i :: 0 <= i < |r.rows| ==> r.rows[i][IndexOf(r.columns, name)] == values[i]
    ensures name in t.columns ==>
      && r.columns == t.columns
      && forall i :: 0 <= i < |r.rows| ==> r.rows[i] == t.rows[i][IndexOf(t.columns, name) := values[i]]
    ensures name !in t.columns ==>
      && r.columns == t.columns + [name]
      && forall i :: 0 <= i < |r.rows| ==> r.rows[i] == t.rows[i] + [values[i]]
  {
    var k := IndexOf(t.columns, name);
    if k < |t.columns| then
      SetColumn(t, k, values)
    else
      IndexOfAppend(t.columns, name);
      AddColumn(t, name, values)
  }

  /** Column `k` overwritten with `values`. */
  function SetColumn(t: Frame, k: nat, values: seq<Cell>): (r: Frame)
    requires k < |t.columns| && |values| == |t.rows|
    ensures r.columns == t.columns && |r.rows| == |t.rows|
    ensures forall i :: 0 <= i < |r.rows| ==> r.rows[i] == t.rows[i][k := values[i]]
  {
    Table(t.columns, seq(|t.rows|, i requires 0 <= i < |t.rows| => t.rows[i][k := values[i]]))
  }

  /** A new last column `name` holding `values`. */
  function AddColumn(t: Frame, name: string, values: seq<Cell>): (r: Frame)
    requires |values| == |t.rows|
    ensures r.columns == t.columns + [name] && |r.rows| == |t.rows|
    ensures forall i :: 0 <= i < |r.rows| ==> r.rows[i] == t.rows[i] + [values[i]]
  {
    Table(t.columns + [name], seq(|t.rows|, i requires 0 <= i < |t.rows| => t.rows[i] + [values[i]]))
  }

  /** Appending an absent element puts its first occurrence at the end. */
  lemma {:induction false} IndexOfAppend(s: seq<string>, x: string)
    requires x !in s
    ensures IndexOf(s + [x], x) == |s|
  {
    if s != [] {
      assert (s + [x])[1..] == s[1..] + [x];
      IndexOfAppend(s[1..], x);
    }
  }

  /** The test `row[k] == wanted` on a labelled row. */
  function HasLabel(k: nat, wanted: string): seq<Cell> -> bool
  {
    (row: seq<Cell>) => k < |row| && row[k] == Value(wanted)
  }

  /** The rows of a frame that pass a test, as a frame with the same columns. */
  function Where(t: Frame, f: seq<Cell> -> bool): (r: Frame)
    ensures r.columns == t.columns && r.rows == Filter(t.rows, f)
  {
    var rows := Filter(t.rows, f);
    assert forall i :: 0 <= i < |rows| ==> |rows[i]| == |t.columns| by {
      FilterMembers(t.rows, f);
      forall i | 0 <= i < |rows| ensures |rows[i]| == |t.columns| {
        var j :| 0 <= j < |t.rows| && t.rows[j] == rows[i];
      }
    }
    Table(t.columns, rows)
  }

  /** The labelled frame and the two groups written to the two output files. */
  datatype Saved = Saved(labelled: Frame, ito: Frame, nonIto: Frame)

  /** Assigning a label list of the wrong length raises. */
  datatype SaveError = LengthMismatch(rows: nat, values: nat)

  function LabelCells(predictions: seq<int>): (cs: seq<Cell>)
    ensures |cs| == |predictions|
    ensures forall i :: 0 <= i < |cs| ==> cs[i] == Value(Label(predictions[i]))
  {
    seq(|predictions|, i requires 0 <= i < |predictions| => Value(Label(predictions[i])))
  }

  /** `save_predictions` without the file writes: label every row, then select the "ITO" rows
      and the "Non-ITO" rows. */
  function SavePredictions(t: Frame, predictions: seq<int>): (r: Result<Saved, SaveError>)
    ensures r.Failure? <==> |predictions| != |t.rows|
  {
    if |predictions| != |t.rows| then Failure(LengthMismatch(|t.rows|, |predictions|))
    else
      var labelled := WithColumn(t, LabelColumn, LabelCells(predictions));
      var k := IndexOf(labelled.columns, LabelColumn);
      Success(Saved(labelled, Where(labelled, HasLabel(k, ItoLabel)), Where(labelled, HasLabel(k, NonItoLabel))))
  }

  /** Every labelled row carries the label of its own prediction, and keeps all its original
      cells: a new last column, or the old `predicted_label` column overwritten. */
  lemma LabelledRows(t: Frame, predictions: seq<int>)
    requires |predictions| == |t.rows|
    ensures var s := SavePredictions(t, predictions).value;
      var k := IndexOf(s.labelled.columns, LabelColumn);
      && k < |s.labelled.columns| && |s.labelled.rows| == |t.rows|
      && (forall i :: 0 <= i < |t.rows| ==> s.labelled.rows[i][k] == Value(Label(predictions[i])))
      && (LabelColumn !in t.columns ==> forall i :: 0 <= i < |t.rows| ==> s.labelled.rows[i][..|t.columns|] == t.rows[i])
  {
    var values := LabelCells(predictions);
    var labelled := WithColumn(t, LabelColumn, values);
    assert SavePredictions(t, predictions).value.labelled == labelled;
    if LabelColumn !in t.columns {
      forall i | 0 <= i < |t.rows| ensures labelled.rows[i][..|t.columns|] == t.rows[i] {
        var row := t.rows[i];
        assert labelled.rows[i] == row + [values[i]];
        assert (row + [values[i]])[..|row|] == row;
      }
    }
  }

  /** What the two group lemmas below work from: the groups are the two selections of the
      labelled rows, and a labelled row passes the "ITO" test exactly when its prediction is 1
      and the "Non-ITO" test exactly when it is not. */
  lemma LabelsAligned(t: Frame, predictions: seq<int>)
    requires |predictions| == |t.rows|
    ensures var s := SavePredictions(t, predictions).value;
      var k := IndexOf(s.labelled.columns, LabelColumn);
      && |s.labelled.rows| == |predictions|
      && s.ito.rows == Filter(s.labelled.rows, HasLabel(k, ItoLabel))
      && s.nonIto.rows == Filter(s.labelled.rows, HasLabel(k, NonItoLabel))
      && forall i :: 0 <= i < |predictions| ==>
           && (HasLabel(k, ItoLabel)(s.labelled.rows[i]) <==> predictions[i] == 1)
           && (HasLabel(k, NonItoLabel)(s.labelled.rows[i]) <==> predictions[i] != 1)
  {
    var s := SavePredictions(t, predictions).value;
    var k := IndexOf(s.labelled.columns, LabelColumn);
    forall i | 0 <= i < |predictions| ensures s.labelled.rows[i][k] == Value(Label(predictions[i])) {
    }
  }

  /** The two groups partition the labelled rows: together they hold each labelled row exactly
      as often as the frame does, their sizes add up to the number of test rows, and the "ITO"
      group has one row per prediction equal to 1. */
  lemma {:induction false} PartitionCounts(t: Frame, predictions: seq<int>)
    requires |predictions| == |t.rows|
    ensures var s := SavePredictions(t, predictions).value;
      && multiset(s.ito.rows) + multiset(s.nonIto.rows) == multiset(s.labelled.rows)
      && |s.ito.rows| + |s.nonIto.rows| == |t.rows|
      && |s.ito.rows| == |Filter(predictions, IsIto)|
  {
    var s := SavePredictions(t, predictions).value;
    var k := IndexOf(s.labelled.columns, LabelColumn);
    LabelsAligned(t, predictions);
    FilterSplit(s.labelled.rows, HasLabel(k, ItoLabel), HasLabel(k, NonItoLabel));
    FilterCountAligned(s.labelled.rows, HasLabel(k, ItoLabel), predictions, IsIto);
  }

  /** No row is in both groups: their label cells differ. */
  lemma GroupsDisjoint(t: Frame, predictions: seq<int>)
    requires |predictions| == |t.rows|
    ensures var s := SavePredictions(t, predictions).value;
      forall row :: row in s.ito.rows ==> row !in s.nonIto.rows
  {
    var s := SavePredictions(t, predictions).value;
    var k := IndexOf(s.labelled.columns, LabelColumn);
    LabelsAligned(t, predictions);
    FilterMembers(s.labelled.rows, HasLabel(k, ItoLabel));
    FilterMembers(s.labelled.rows, HasLabel(k, NonItoLabel));
    forall row | row in s.ito.rows ensures row !in s.nonIto.rows {
      var j :| 0 <= j < |s.ito.rows| && s.ito.rows[j] == row;
      assert row[k] == Value(ItoLabel);
    }
  }

  /** Each group keeps the order of the test rows. */
  lemma GroupsOrdered(t: Frame, predictions: seq<int>)
    requires |predictions| == |t.rows|
    ensures var s := SavePredictions(t, predictions).value;
      IsSubsequence(s.ito.rows, s.labelled.rows) && IsSubsequence(s.nonIto.rows, s.labelled.rows)
  {
    var s := SavePredictions(t, predictions).value;
    var k := IndexOf(s.labelled.columns, LabelColumn);
    LabelsAligned(t, predictions);
    FilterIsSubsequence(s.labelled.rows, HasLabel(k, ItoLabel));
    FilterIsSubsequence(s.labelled.rows, HasLabel(k, NonItoLabel));
  }

  /** Each row of a group is the labelled copy of a test row whose prediction gave that
      group's label: 1 for "ITO", anything else for "Non-ITO". */
  lemma GroupsFromPredictions(t: Frame, predictions: seq<int>)
    requires |predictions| == |t.rows|
    ensures var s := SavePredictions(t, predictions).value;
      && (forall j :: 0 <= j < |s.ito.rows| ==>
            exists i :: 0 <= i < |t.rows| && s.ito.rows[j] == s.labelled.rows[i] && predictions[i] == 1)
      && (forall j :: 0 <= j < |s.nonIto.rows| ==>
            exists i :: 0 <= i < |t.rows| && s.nonIto.rows[j] == s.labelled.rows[i] && predictions[i] != 1)
  {
    var s := SavePredictions(t, predictions).value;
    var k := IndexOf(s.labelled.columns, LabelColumn);
    LabelsAligned(t, predictions);
    GroupsFromLabels(s.labelled.rows, k, predictions, s.ito.rows, s.nonIto.rows);
  }

  /** `GroupsFromPredictions` for any rows whose label cell at `k` follows the predictions. */
  lemma GroupsFromLabels(rows: seq<seq<Cell>>, k: nat, predictions: seq<int>,
                         ito: seq<seq<Cell>>, nonIto: seq<seq<Cell>>)
    requires |rows| == |predictions|
    requires forall i :: 0 <= i < |predictions| ==>
      && (HasLabel(k, ItoLabel)(rows[i]) <==> predictions[i] == 1)
      && (HasLabel(k, NonItoLabel)(rows[i]) <==> predictions[i] != 1)
    requires ito == Filter(rows, HasLabel(k, ItoLabel)) && nonIto == Filter(rows, HasLabel(k, NonItoLabel))
    ensures forall j :: 0 <= j < |ito| ==> exists i :: 0 <= i < |predictions| && ito[j] == rows[i] && predictions[i] == 1
    ensures forall j :: 0 <= j < |nonIto| ==> exists i :: 0 <= i < |predictions| && nonIto[j] == rows[i] && predictions[i] != 1
  {
    FilterFromAligned(rows, HasLabel(k, ItoLabel), predictions, IsIto);
    forall j | 0 <= j < |ito| ensures exists i :: 0 <= i < |rows| && ito[j] == rows[i] && predictions[i] == 1 {
      var i :| 0 <= i < |rows| && ito[j] == rows[i] && IsIto(predictions[i]);
    }
    FilterFromAligned(rows, HasLabel(k, NonItoLabel), predictions, IsNonIto);
    forall j | 0 <= j < |nonIto| ensures exists i :: 0 <= i < |rows| && nonIto[j] == rows[i] && predictions[i] != 1 {
      var i :| 0 <= i < |rows| && nonIto[j] == rows[i] && IsNonIto(predictions[i]);
    }
  }


  /** Loading keeps every test row, so one prediction per transformed text is one per row and
      the predictions can always be saved. */
  lemma LoadedRowsCanBeSaved(content: ReadOutcome, predictions: seq<int>)
    requires LoadTestData(content).Success?
    requires |predictions| == |LoadTestData(content).value.texts|
    ensures SavePredictions(LoadTestData(content).value.frame, predictions).Success?
  {
  }
}
