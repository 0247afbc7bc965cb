/** The tissue column layout read by preprocessing/generate_pca_of_log_rpkm.py: the list of
    tissues, the matrix columns of each tissue (from its metadata file), and the number of
    features they add up to. Files are their lines, terminators included. */
module TissueColumns {
  import opened Outcome
  import opened Text
  import opened Decimal

  const TissueListPath: string := "../data/tissues.txt"

  // ---------------------------------------------------------------------------------
  // get_tissue_list

  /** `get_tissue_list`: the tab-separated fields of the first line, trailing whitespace
      removed; later lines are never read. A file without lines leaves `tissues` unbound. */
  function GetTissueList(lines: seq<string>): (r: Result<seq<string>>)
    ensures r.Ok? <==> |lines| > 0
    ensures r.Err? ==> r.error == EmptyFile(TissueListPath)
    ensures r.Ok? ==> |r.value| >= 1 && Join(r.value, Tab) == RStrip(lines[0])
    ensures r.Ok? ==> forall k :: 0 <= k < |r.value| ==> Tab !in r.value[k]
  {
    if lines == [] then Err(EmptyFile(TissueListPath))
    else
      JoinSplit(RStrip(lines[0]), Tab);
      Ok(Fields(lines[0]))
  }

  /** A header line that lists the tissues, tab-separated, gives back exactly those tissues,
      whatever line terminator and later lines follow. */
  lemma {:induction false} TissueListOfHeader(tissues: seq<string>, terminator: string, rest: seq<string>)
    requires |tissues| >= 1 && forall k :: 0 <= k < |tissues| ==> Tab !in tissues[k]
    requires var last := tissues[|tissues| - 1]; |last| >= 1 && !IsSpace(last[|last| - 1])
    requires AllSpace(terminator)
    ensures GetTissueList([Join(tissues, Tab) + terminator] + rest) == Ok(tissues)
  {
    var line := Join(tissues, Tab);
    JoinLast(tissues, Tab);
    RStripOfPadded(line, terminator);
    SplitJoin(tissues, Tab);
  }

  // ---------------------------------------------------------------------------------
  // get_tissues_to_cols

  /** The metadata file read for a tissue. */
  function MetaPath(tissue: string): string
  {
    "../data/tissue_metadata/tissue_meta_" + tissue + ".txt"
  }

  /** `int(line.split('\t')[0])`: a metadata line's column, if field 0 is an integer. */
  function ColumnField(line: string): (r: Option<int>)
    ensures var i := IndexOf(line, Tab); r == ParseInt(if i < 0 then line else line[..i])
    ensures |line| > 0 && line[0] == Tab ==> r.None?
  {
    ParseInt(Split(line, Tab)[0])
  }

  /** Each metadata line as `int()` reads its field 0. */
  function ColumnFields(lines: seq<string>): (r: seq<Option<int>>)
    ensures |r| == |lines| && forall k :: 0 <= k < |lines| ==> r[k] == ColumnField(lines[k])
  {
    seq(|lines|, k requires 0 <= k < |lines| => ColumnField(lines[k]))
  }

  /** The column list `get_tissues_to_cols` builds from a tissue's metadata lines, given
      field 0 of each line as `int()` reads it: line 0 is skipped and every later line adds
      its column, in file order; the first line whose field 0 is not an integer stops the
      reading (ValueError). */
  function ColumnsOf(tissue: string, fields: seq<Option<int>>): (r: Result<seq<int>>)
    ensures r.Ok? ==> |r.value| == DataCount(fields, 1)
    ensures r.Err? ==> r.error.BadInteger? && r.error.name == MetaPath(tissue)
                       && 1 <= r.error.line < |fields| && fields[r.error.line].None?
  {
    if fields == [] then Ok([])
    else
      match ColumnsOf(tissue, fields[..|fields| - 1])
      case Err(e) => Err(e)
      case Ok(cols) =>
        var i := |fields| - 1;
        if i < 1 then Ok(cols)
        else
          match fields[i]
          case None => Err(BadInteger(MetaPath(tissue), i))
          case Some(c) => Ok(cols + [c])
  }

  lemma {:induction false} ColumnsOfErrSticks(tissue: string, fields: seq<Option<int>>, n: nat)
    requires n <= |fields|
    requires ColumnsOf(tissue, fields[..n]).Err?
    ensures ColumnsOf(tissue, fields) == ColumnsOf(tissue, fields[..n])
    decreases |fields| - n
  {
    if n < |fields| {
      assert fields[..n + 1][..n] == fields[..n];
      ColumnsOfErrSticks(tissue, fields, n + 1);
    } else {
      assert fields[..n] == fields;
    }
  }

  /** One more metadata line: the header is skipped, a later line adds its column or fails. */
  lemma ColumnsOfStep(tissue: string, fields: seq<Option<int>>, i: nat)
    requires i < |fields| && ColumnsOf(tissue, fields[..i]).Ok?
    ensures ColumnsOf(tissue, fields[..i + 1]) ==
              if i < 1 then ColumnsOf(tissue, fields[..i])
              else match fields[i]
                   case None => Err(BadInteger(MetaPath(tissue), i))
                   case Some(c) => Ok(ColumnsOf(tissue, fields[..i]).value + [c])
  {
    assert fields[..i + 1][..i] == fields[..i];
  }

  /** The inner loop of `get_tissues_to_cols`: one tissue's metadata file. */
  method ReadColumns(tissue: string, lines: seq<string>) returns (r: Result<seq<int>>)
    ensures r == ColumnsOf(tissue, ColumnFields(lines))
  {
    ghost var fields := ColumnFields(lines);
    var cols: seq<int> := [];
    var i := 0;
    while i < |lines|
      invariant 0 <= i <= |lines|
      invariant ColumnsOf(tissue, fields[..i]) == Ok(cols)
    {
      ColumnsOfStep(tissue, fields, i);
      if i < 1 {
        i := i + 1;
        continue;
      }
      var col := ColumnField(lines[i]);
      assert col == fields[i];
      if col.None? {
        ColumnsOfErrSticks(tissue, fields, i + 1);
        return Err(BadInteger(MetaPath(tissue), i));
      }
      cols := cols + [col.value];
      i := i + 1;
    }
    assert fields[..i] == fields;
    return Ok(cols);
  }

  /** The header is skipped and every other line gives one column, in order; reading fails
      exactly when some later line's field 0 is not an integer, and then at the first one. */
  lemma {:induction false} ColumnsOfMeaning(tissue: string, fields: seq<Option<int>>)
    ensures ColumnsOf(tissue, fields).Ok? <==> forall i :: 1 <= i < |fields| ==> fields[i].Some?
    ensures ColumnsOf(tissue, fields).Ok? ==>
              var cols := ColumnsOf(tissue, fields).value;
              |cols| == DataCount(fields, 1) &&
              forall k :: 0 <= k < |cols| ==> fields[k + 1] == Some(cols[k])
    ensures ColumnsOf(tissue, fields).Err? ==>
              exists i :: 1 <= i < |fields| && ColumnsOf(tissue, fields).error == BadInteger(MetaPath(tissue), i)
                          && fields[i].None?
                          && forall j :: 1 <= j < i ==> fields[j].Some?
  {
    if fields != [] {
      var pre := fields[..|fields| - 1];
      ColumnsOfMeaning(tissue, pre);
      assert forall j :: 0 <= j < |pre| ==> pre[j] == fields[j];
      if ColumnsOf(tissue, pre).Err? {
        var i :| 1 <= i < |pre| && ColumnsOf(tissue, pre).error == BadInteger(MetaPath(tissue), i)
                 && pre[i].None? && forall j :: 1 <= j < i ==> pre[j].Some?;
        assert fields[i].None?;
      }
    }
  }

  /** A metadata line that starts with a printed column number and a tab yields that number. */
  lemma {:induction false} ColumnFieldOfPrinted(c: nat, rest: string)
    ensures ColumnField(NatToDecimal(c) + [Tab] + rest) == Some(c)
  {
    var d := NatToDecimal(c);
    var line := d + [Tab] + rest;
    assert Tab !in d by {
      forall k | 0 <= k < |d| ensures d[k] != Tab { assert IsDigit(d[k]); }
    }
    IndexOfAfterFree(d, Tab, rest);
    assert line[..|d|] == d;
    assert Split(line, Tab)[0] == d;
    assert [] + d + [] == d;
    ParseIntOfDecimal(c, [], []);
  }

  /** A metadata file listing `cols` after a header, one per line, each followed by a tab and
      the rest of its line. */
  function PrintedLines(header: string, cols: seq<nat>, rests: seq<string>): (r: seq<string>)
    requires |rests| == |cols|
    ensures |r| == |cols| + 1 && r[0] == header
    ensures forall k :: 0 <= k < |cols| ==> r[k + 1] == NatToDecimal(cols[k]) + [Tab] + rests[k]
  {
    [header] + seq(|cols|, k requires 0 <= k < |cols| => NatToDecimal(cols[k]) + [Tab] + rests[k])
  }

  /** Writing the columns out one per line after a header and reading them back gives the
      same columns. */
  lemma {:induction false} ColumnsOfPrinted(tissue: string, header: string, cols: seq<nat>, rests: seq<string>)
    requires |rests| == |cols|
    ensures ColumnsOf(tissue, ColumnFields(PrintedLines(header, cols, rests))) == Ok(cols)
  {
    var lines := PrintedLines(header, cols, rests);
    var fields := ColumnFields(lines);
    forall k | 0 <= k < |cols| ensures fields[k + 1] == Some(cols[k] as int) {
      ColumnFieldOfPrinted(cols[k], rests[k]);
    }
    ColumnsOfAllPresent(tissue, fields, cols);
  }

  lemma {:induction false} ColumnsOfAllPresent(tissue: string, fields: seq<Option<int>>, cols: seq<int>)
    requires |fields| == |cols| + 1
    requires forall k :: 0 <= k < |cols| ==> fields[k + 1] == Some(cols[k])
    ensures ColumnsOf(tissue, fields) == Ok(cols)
  {
    ColumnsOfMeaning(tissue, fields);
    forall i | 1 <= i < |fields| ensures fields[i].Some? {
      assert fields[(i - 1) + 1] == Some(cols[i - 1]);
    }
    var got := ColumnsOf(tissue, fields).value;
    assert |got| == |cols|;
    forall k | 0 <= k < |cols| ensures got[k] == cols[k] {
      assert fields[k + 1] == Some(got[k]);
    }
    assert got == cols;
  }

  /** One tissue's column list: the columns of its metadata file, or IOError when the file
      is missing. */
  function ColumnsFor(tissue: string, files: map<string, seq<string>>): Result<seq<int>>
  {
    if MetaPath(tissue) !in files then Err(MissingFile(MetaPath(tissue)))
    else ColumnsOf(tissue, ColumnFields(files[MetaPath(tissue)]))
  }

  /** The reading of each tissue's metadata file, as `get_tissues_to_cols` applies it. */
  function MetaColumns(files: map<string, seq<string>>): string -> Result<seq<int>>
  {
    tissue => ColumnsFor(tissue, files)
  }

  /** The dictionary `get_tissues_to_cols` builds, for a given per-tissue reading: every
      listed tissue to its columns, a later occurrence replacing an earlier one. The first
      tissue that cannot be read stops it. */
  function TissuesToCols(tissues: seq<string>, colsOf: string -> Result<seq<int>>): (r: Result<map<string, seq<int>>>)
    ensures r.Ok? ==> forall t :: t in r.value ==> t in tissues && colsOf(t) == Ok(r.value[t])
    ensures r.Err? ==> exists k :: 0 <= k < |tissues| && colsOf(tissues[k]) == Err(r.error)
  {
    if tissues == [] then Ok(map[])
    else
      match TissuesToCols(tissues[..|tissues| - 1], colsOf)
      case Err(e) => Err(e)
      case Ok(m) =>
        var tissue := tissues[|tissues| - 1];
        match colsOf(tissue)
        case Err(e) => Err(e)
        case Ok(cols) => Ok(m[tissue := cols])
  }

  lemma {:induction false} TissuesToColsErrSticks(tissues: seq<string>, colsOf: string -> Result<seq<int>>, n: nat)
    requires n <= |tissues|
    requires TissuesToCols(tissues[..n], colsOf).Err?
    ensures TissuesToCols(tissues, colsOf) == TissuesToCols(tissues[..n], colsOf)
    decreases |tissues| - n
  {
    if n < |tissues| {
      assert tissues[..n + 1][..n] == tissues[..n];
      TissuesToColsErrSticks(tissues, colsOf, n + 1);
    } else {
      assert tissues[..n] == tissues;
    }
  }

  /** One more tissue of the dictionary loop. */
  lemma TissuesToColsStep(tissues: seq<string>, colsOf: string -> Result<seq<int>>, n: nat)
    requires n < |tissues| && TissuesToCols(tissues[..n], colsOf).Ok?
    ensures TissuesToCols(tissues[..n + 1], colsOf) ==
              match colsOf(tissues[n])
              case Err(e) => Err(e)
              case Ok(cols) => Ok(TissuesToCols(tissues[..n], colsOf).value[tissues[n] := cols])
  {
    assert tissues[..n + 1][..n] == tissues[..n];
  }

  /** One pass of the dictionary loop: open the tissue's metadata file and read its columns. */
  method ReadTissueColumns(tissue: string, files: map<string, seq<string>>) returns (r: Result<seq<int>>)
    ensures r == ColumnsFor(tissue, files)
  {
    var metaName := MetaPath(tissue);
    if metaName !in files {
      return Err(MissingFile(metaName));
    }
    r := ReadColumns(tissue, files[metaName]);
  }

  /** `get_tissues_to_cols`, with the metadata files given by path. */
  method GetTissuesToCols(tissues: seq<string>, files: map<string, seq<string>>)
    returns (r: Result<map<string, seq<int>>>)
    ensures r == TissuesToCols(tissues, MetaColumns(files))
  {
    ghost var colsOf := MetaColumns(files);
    var tissuesToCols: map<string, seq<int>> := map[];
    var n := 0;
    while n < |tissues|
      invariant 0 <= n <= |tissues|
      invariant TissuesToCols(tissues[..n], colsOf) == Ok(tissuesToCols)
    {
      var cols := ReadTissueColumns(tissues[n], files);
      assert cols == colsOf(tissues[n]);
      TissuesToColsStep(tissues, colsOf, n);
      if cols.Err? {
        TissuesToColsErrSticks(tissues, colsOf, n + 1);
        return Err(cols.error);
      }
      tissuesToCols := tissuesToCols[tissues[n] := cols.value];
      n := n + 1;
    }
    assert tissues[..n] == tissues;
    return Ok(tissuesToCols);
  }

  /** Every listed tissue gets an entry, and nothing else does. */
  lemma {:induction false} TissuesToColsKeys(tissues: seq<string>, colsOf: string -> Result<seq<int>>)
    requires TissuesToCols(tissues, colsOf).Ok?
    ensures TissuesToCols(tissues, colsOf).value.Keys == set t | t in tissues
  {
    if tissues != [] {
      var pre := tissues[..|tissues| - 1];
      var last := tissues[|tissues| - 1];
      TissuesToColsKeys(pre, colsOf);
      assert tissues == pre + [last];
      assert (set t | t in tissues) == (set t | t in pre) + {last};
    }
  }

  /** Each entry holds what reading that tissue gives: for the metadata files, the columns
      of the tissue's own file. */
  lemma {:induction false} TissuesToColsEntries(tissues: seq<string>, colsOf: string -> Result<seq<int>>)
    requires TissuesToCols(tissues, colsOf).Ok?
    ensures var m := TissuesToCols(tissues, colsOf).value;
            forall t :: t in tissues ==> t in m && colsOf(t) == Ok(m[t])
  {
    if tissues != [] {
      var pre := tissues[..|tissues| - 1];
      var last := tissues[|tissues| - 1];
      TissuesToColsEntries(pre, colsOf);
      forall t | t in tissues && t != last
        ensures t in pre
      {
        var k :| 0 <= k < |tissues| && tissues[k] == t;
        assert pre[k] == t;
      }
    }
  }

  /** The reading fails exactly when some tissue cannot be read: for the metadata files,
      when some tissue's file is missing or holds a bad line. */
  lemma {:induction false} TissuesToColsFails(tissues: seq<string>, colsOf: string -> Result<seq<int>>)
    ensures TissuesToCols(tissues, colsOf).Ok? <==> forall t :: t in tissues ==> colsOf(t).Ok?
  {
    if tissues != [] {
      var pre := tissues[..|tissues| - 1];
      TissuesToColsFails(pre, colsOf);
      assert tissues == pre + [tissues[|tissues| - 1]];
    }
  }

  /** A tissue's file can be read exactly when it is present and every line after its header
      starts with an integer. */
  lemma {:induction false} ColumnsForFails(tissue: string, files: map<string, seq<string>>)
    ensures ColumnsFor(tissue, files).Ok? <==>
              MetaPath(tissue) in files &&
              forall i :: 1 <= i < |files[MetaPath(tissue)]| ==> ColumnField(files[MetaPath(tissue)][i]).Some?
  {
    if MetaPath(tissue) in files {
      ColumnsOfMeaning(tissue, ColumnFields(files[MetaPath(tissue)]));
    }
  }

  // ---------------------------------------------------------------------------------
  // num_features

  /** The total number of columns of the entries `keys` of `m`. */
  ghost function ColumnsIn(m: map<string, seq<int>>, keys: set<string>): nat
    requires keys <= m.Keys
    decreases keys
  {
    if keys == {} then 0 else var k :| k in keys; |m[k]| + ColumnsIn(m, keys - {k})
  }

  /** The total does not depend on the order in which the keys are visited. */
  lemma {:induction false} ColumnsInRemove(m: map<string, seq<int>>, keys: set<string>, k: string)
    requires keys <= m.Keys && k in keys
    ensures ColumnsIn(m, keys) == |m[k]| + ColumnsIn(m, keys - {k})
    decreases keys
  {
    var j :| j in keys && ColumnsIn(m, keys) == |m[j]| + ColumnsIn(m, keys - {j});
    if j != k {
      ColumnsInRemove(m, keys - {j}, k);
      ColumnsInRemove(m, keys - {k}, j);
      assert keys - {j} - {k} == keys - {k} - {j};
    }
  }

  /** The `num_features` loop: visit the entries of the dictionary in whatever order it
      yields them and add up the lengths of their column lists. */
  method CountFeatures(tissuesToCols: map<string, seq<int>>) returns (numFeatures: nat)
    ensures numFeatures == ColumnsIn(tissuesToCols, tissuesToCols.Keys)
  {
    numFeatures := 0;
    var remaining := tissuesToCols.Keys;
    while remaining != {}
      invariant remaining <= tissuesToCols.Keys
      invariant numFeatures + ColumnsIn(tissuesToCols, remaining) == ColumnsIn(tissuesToCols, tissuesToCols.Keys)
      decreases remaining
    {
      var tissue :| tissue in remaining;
      ColumnsInRemove(tissuesToCols, remaining, tissue);
      numFeatures := numFeatures + |tissuesToCols[tissue]|;
      remaining := remaining - {tissue};
    }
  }

  /** The number of columns of the listed tissues, in list order. */
  function ListColumns(tissues: seq<string>, m: map<string, seq<int>>): nat
    requires forall t :: t in tissues ==> t in m
  {
    if tissues == [] then 0
    else ListColumns(tissues[..|tissues| - 1], m) + |m[tissues[|tissues| - 1]]|
  }

  /** For a list of distinct tissues that are exactly the dictionary's keys, the feature
      count is the sum of the tissues' column counts. */
  lemma {:induction false} ColumnsInIsListSum(tissues: seq<string>, m: map<string, seq<int>>, keys: set<string>)
    requires forall a, b :: 0 <= a < b < |tissues| ==> tissues[a] != tissues[b]
    requires keys <= m.Keys && keys == set t | t in tissues
    ensures ColumnsIn(m, keys) == ListColumns(tissues, m)
  {
    if tissues != [] {
      var pre := tissues[..|tissues| - 1];
      var last := tissues[|tissues| - 1];
      ColumnsInRemove(m, keys, last);
      assert keys - {last} == set t | t in pre by {
        forall t | t in keys - {last} ensures t in pre {
          var a :| 0 <= a < |tissues| && tissues[a] == t;
          assert a < |pre|;
          assert pre[a] == t;
        }
        forall t | t in pre ensures t in keys - {last} {
          var a :| 0 <= a < |pre| && pre[a] == t;
          assert tissues[a] == t;
        }
      }
      ColumnsInIsListSum(pre, m, keys - {last});
    }
  }
}
