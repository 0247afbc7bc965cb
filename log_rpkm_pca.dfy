/** The `__main__` block of preprocessing/generate_pca_of_log_rpkm.py: count the genes of the
    expression table, read it into a pre-sized matrix of log expression levels, reduce each
    tissue's columns to `NPcomp` components, and lay the reduced blocks side by side with a
    tissue label per column.

    Two computations are parameters: `level` is `np.log10(float(field) + 1.0)` for one field
    (`None` where `float` raises ValueError), and `reducer` is the per-tissue normalisation
    followed by `PCA(n_components=5).fit_transform`. A reducer that fails is one whose result
    does not have the expected shape. */
module LogRpkmPca {
  import opened Outcome
  import opened Text
  import opened Decimal
  import opened TissueColumns

  const NHeaderLines: nat := 1
  const NPcomp: nat := 5

  // ---------------------------------------------------------------------------------
  // num_genes

  /** The gene-counting loop: every line after the header counts. */
  method CountGenes(lines: seq<string>) returns (numGenes: nat)
    ensures numGenes == DataCount(lines, NHeaderLines)
  {
    numGenes := 0;
    var i := 0;
    while i < |lines|
      invariant 0 <= i <= |lines|
      invariant numGenes == if i < NHeaderLines then 0 else i - NHeaderLines
    {
      if i >= NHeaderLines {
        numGenes := numGenes + 1;
      }
      i := i + 1;
    }
  }

  // ---------------------------------------------------------------------------------
  // reading the full matrix

  /** `vals[0:3]` of the header line: its first three fields, or all of them if fewer. */
  function FirstFields(line: string): seq<string>
  {
    var vals := Fields(line);
    if |vals| <= 3 then vals else vals[..3]
  }

  /** `vals[0]`: the gene id of a data line, version included. */
  function GeneId(line: string): string
  {
    Fields(line)[0]
  }

  /** What `full_mtx[idx,:] = exp_levels` stores in a row of `width` columns: the converted
      fields when there are `width` of them, a single value repeated across the row (numpy
      broadcasting), and otherwise a ValueError. */
  function RowOf(line: string, idx: nat, width: nat, level: string -> Option<real>): (r: Result<seq<real>>)
    ensures r.Ok? ==> |r.value| == width
  {
    match ParseLevels(FeatureFields(line), level)
    case None => Err(BadNumber(idx))
    case Some(values) =>
      if |values| == width then Ok(values)
      else if |values| == 1 then Ok(seq(width, _ => values[0]))
      else Err(RowWidth(idx))
  }

  /** A row is stored exactly when every field is a number and there are either `width`
      fields or one; cell `c` then holds the level of field `c`, or of the single field. A
      non-number is reported before a width mismatch. */
  lemma {:induction false} RowOfMeaning(line: string, idx: nat, width: nat, level: string -> Option<real>)
    ensures var r := RowOf(line, idx, width, level); var fields := FeatureFields(line);
            && (r.Err? <==>
                  (exists k :: 0 <= k < |fields| && level(fields[k]).None?) ||
                  (|fields| != width && |fields| != 1))
            && (r.Err? ==> r.error == if (exists k :: 0 <= k < |fields| && level(fields[k]).None?)
                                       then BadNumber(idx) else RowWidth(idx))
            && (r.Ok? ==> forall c :: 0 <= c < width ==>
                  level(fields[if |fields| == width then c else 0]) == Some(r.value[c]))
  {
  }

  /** The row the reading loop converts from each data line, for a given line parser. */
  function LineRows(data: seq<string>, rowOf: (string, nat) -> Result<seq<real>>): (r: seq<Result<seq<real>>>)
    ensures |r| == |data| && forall idx :: 0 <= idx < |data| ==> r[idx] == rowOf(data[idx], idx)
  {
    seq(|data|, idx requires 0 <= idx < |data| => rowOf(data[idx], idx))
  }

  /** The id the reading loop takes from each data line. */
  function LineIds(data: seq<string>, idOf: string -> string): (r: seq<string>)
    ensures |r| == |data| && forall idx :: 0 <= idx < |data| ==> r[idx] == idOf(data[idx])
  {
    seq(|data|, idx requires 0 <= idx < |data| => idOf(data[idx]))
  }

  /** The conversion of one data line into a row of `width` cells. */
  function RowParser(width: nat, level: string -> Option<real>): (string, nat) -> Result<seq<real>>
  {
    (line: string, idx: nat) => RowOf(line, idx, width, level)
  }

  /** The row every data line produces. */
  function MatrixRows(data: seq<string>, width: nat, level: string -> Option<real>): (r: seq<Result<seq<real>>>)
    ensures |r| == |data| && forall idx :: 0 <= idx < |data| ==> r[idx] == RowOf(data[idx], idx, width, level)
  {
    LineRows(data, RowParser(width, level))
  }

  /** The contents of a matrix, row by row. */
  function Rows(a: array2<real>): (r: seq<seq<real>>)
    reads a
    ensures |r| == a.Length0
    ensures forall i :: 0 <= i < a.Length0 ==> |r[i]| == a.Length1
    ensures forall i, j :: 0 <= i < a.Length0 && 0 <= j < a.Length1 ==> r[i][j] == a[i, j]
  {
    seq(a.Length0, i requires 0 <= i < a.Length0 reads a =>
      seq(a.Length1, j requires 0 <= j < a.Length1 reads a => a[i, j]))
  }

  /** A matrix whose every cell equals the matching entry of `rows` has exactly those rows. */
  lemma {:induction false} RowsOfCells(a: array2<real>, rows: seq<seq<real>>)
    requires |rows| == a.Length0
    requires forall i :: 0 <= i < |rows| ==> |rows[i]| == a.Length1
    requires forall i, c :: 0 <= i < a.Length0 && 0 <= c < a.Length1 ==> a[i, c] == rows[i][c]
    ensures Rows(a) == rows
  {
    var got := Rows(a);
    forall i | 0 <= i < |rows|
      ensures got[i] == rows[i]
    {
      assert |got[i]| == |rows[i]|;
    }
  }

  /** `full_mtx[idx,:] = exp_levels` for a row already broadcast to the matrix width. */
  method StoreRow(fullMtx: array2<real>, idx: nat, row: seq<real>)
    requires idx < fullMtx.Length0 && |row| == fullMtx.Length1
    modifies fullMtx
    ensures forall i, c :: 0 <= i < fullMtx.Length0 && 0 <= c < fullMtx.Length1 ==>
              fullMtx[i, c] == if i == idx then row[c] else old(fullMtx[i, c])
  {
    forall c | 0 <= c < fullMtx.Length1 {
      fullMtx[idx, c] := row[c];
    }
  }

  /** One pass of the reading loop for data line `idx`: `gene_ids[idx] = vals[0]`, then the
      row is converted and, when it fits, stored in row `idx`. */
  method FillRow(fullMtx: array2<real>, geneIds: array<string>, idx: nat, line: string,
                 idOf: string -> string, rowOf: (string, nat) -> Result<seq<real>>)
    returns (row: Result<seq<real>>)
    requires idx < fullMtx.Length0 && idx < geneIds.Length
    requires rowOf(line, idx).Ok? ==> |rowOf(line, idx).value| == fullMtx.Length1
    modifies fullMtx, geneIds
    ensures row == rowOf(line, idx)
    ensures geneIds[..] == old(geneIds[..])[idx := idOf(line)]
    ensures forall i, c :: 0 <= i < fullMtx.Length0 && 0 <= c < fullMtx.Length1 ==>
              fullMtx[i, c] == if i == idx && row.Ok? then row.value[c] else old(fullMtx[i, c])
  {
    geneIds[idx] := idOf(line);
    row := rowOf(line, idx);
    if row.Ok? {
      StoreRow(fullMtx, idx, row.value);
    }
  }

  /** The reading loop over the data lines, for any line parser: row `idx` and id `idx` come
      from data line `idx`, and the loop stops at the first line whose row cannot be stored. */
  method FillRows(data: seq<string>, fullMtx: array2<real>, geneIds: array<string>,
                  idOf: string -> string, rowOf: (string, nat) -> Result<seq<real>>)
    returns (r: Result<seq<seq<real>>>)
    requires fullMtx.Length0 == geneIds.Length == |data|
    requires forall line, idx :: rowOf(line, idx).Ok? ==> |rowOf(line, idx).value| == fullMtx.Length1
    modifies fullMtx, geneIds
    ensures r == Collect(LineRows(data, rowOf))
    ensures r.Ok? ==> Rows(fullMtx) == r.value && geneIds[..] == LineIds(data, idOf)
  {
    ghost var views := LineRows(data, rowOf);
    ghost var ids := LineIds(data, idOf);
    var done: seq<seq<real>> := [];
    var idx := 0;
    while idx < |data|
      invariant 0 <= idx <= |data| && |done| == idx
      invariant Collect(views[..idx]) == Ok(done)
      invariant geneIds[..idx] == ids[..idx]
      invariant forall i :: 0 <= i < idx ==> |done[i]| == fullMtx.Length1
      invariant forall i, c :: 0 <= i < idx && 0 <= c < fullMtx.Length1 ==> fullMtx[i, c] == done[i][c]
    {
      var row := FillRow(fullMtx, geneIds, idx, data[idx], idOf, rowOf);
      CollectStep(views, idx);
      if row.Err? {
        CollectErrSticks(views, idx + 1);
        return Err(row.error);
      }
      assert geneIds[..idx + 1] == geneIds[..idx] + [ids[idx]];
      done := done + [row.value];
      idx := idx + 1;
    }
    assert views[..idx] == views;
    RowsOfCells(fullMtx, done);
    assert geneIds[..] == geneIds[..idx];
    assert ids[..idx] == ids;
    return Ok(done);
  }

  /** The reading loop of the table into the pre-sized `full_mtx` and `gene_ids`. Data line
      `idx` fills row `idx` and gene id `idx`; the header's first fields are returned (`None`
      when the table has no line, so that `first_fields` stays unbound). */
  method FillMatrix(lines: seq<string>, fullMtx: array2<real>, geneIds: array<string>,
                    level: string -> Option<real>)
    returns (r: Result<Option<seq<string>>>)
    requires fullMtx.Length0 == geneIds.Length == DataCount(lines, NHeaderLines)
    modifies fullMtx, geneIds
    ensures var rows := Collect(MatrixRows(DataLines(lines), fullMtx.Length1, level));
            && (r.Err? <==> rows.Err?)
            && (r.Err? ==> r.error == rows.error)
            && (r.Ok? ==>
                  && r.value == (if lines == [] then None else Some(FirstFields(lines[0])))
                  && Rows(fullMtx) == rows.value
                  && forall idx :: 0 <= idx < geneIds.Length ==> geneIds[idx] == GeneId(lines[idx + 1]))
  {
    var firstFields := if lines == [] then None else Some(FirstFields(lines[0]));
    var filled := FillRows(DataLines(lines), fullMtx, geneIds, GeneId, RowParser(fullMtx.Length1, level));
    if filled.Err? {
      return Err(filled.error);
    }
    assert forall idx :: 0 <= idx < geneIds.Length ==> geneIds[idx] == geneIds[..][idx];
    return Ok(firstFields);
  }

  // ---------------------------------------------------------------------------------
  // reducing each tissue

  /** Column `c` of a numpy index into `width` columns: a negative index counts from the end. */
  function WrapColumn(c: int, width: nat): int
  {
    if c < 0 then c + width else c
  }

  predicate ColumnInRange(c: int, width: nat)
  {
    -(width as int) <= c < width
  }

  /** `full_mtx[:, cols]`: the listed columns of every row, or nothing if an index is out of
      range (IndexError). */
  function Gather(full: seq<seq<real>>, width: nat, cols: seq<int>): (r: Option<seq<seq<real>>>)
    requires forall i :: 0 <= i < |full| ==> |full[i]| == width
    ensures r.Some? <==> forall k :: 0 <= k < |cols| ==> ColumnInRange(cols[k], width)
    ensures r.Some? ==> |r.value| == |full| && forall i :: 0 <= i < |full| ==>
              |r.value[i]| == |cols| &&
              forall k :: 0 <= k < |cols| ==> r.value[i][k] == full[i][WrapColumn(cols[k], width)]
  {
    if forall k :: 0 <= k < |cols| ==> ColumnInRange(cols[k], width) then
      Some(seq(|full|, i requires 0 <= i < |full| =>
        seq(|cols|, k requires 0 <= k < |cols| => full[i][WrapColumn(cols[k], width)])))
    else None
  }

  /** Only the columns an index list names matter: two lists that name the same columns,
      one with negative indices and one without, say, select the same block. */
  lemma GatherSameColumns(full: seq<seq<real>>, width: nat, cols: seq<int>, others: seq<int>)
    requires forall i :: 0 <= i < |full| ==> |full[i]| == width
    requires |cols| == |others|
    requires forall k :: 0 <= k < |cols| ==> ColumnInRange(cols[k], width) && ColumnInRange(others[k], width)
    requires forall k :: 0 <= k < |cols| ==> WrapColumn(cols[k], width) == WrapColumn(others[k], width)
    ensures Gather(full, width, cols) == Gather(full, width, others)
  {
    var a := Gather(full, width, cols).value;
    var b := Gather(full, width, others).value;
    forall i | 0 <= i < |full| ensures a[i] == b[i] {
      assert forall k :: 0 <= k < |cols| ==> a[i][k] == b[i][k];
    }
    assert a == b;
  }

  /** A block of `rows` rows and `NPcomp` columns. */
  predicate IsBlock(b: seq<seq<real>>, rows: nat)
  {
    |b| == rows && forall i :: 0 <= i < |b| ==> |b[i]| == NPcomp
  }

  /** One tissue's reduced block: its column list looked up (KeyError when the tissue has
      none), its columns gathered (IndexError when one is out of range), the assertion that
      there are at least `NPcomp` of them, then the reducer, which must return one row of
      `NPcomp` components per gene. */
  function TissueBlock(full: seq<seq<real>>, width: nat, tissue: string, tissuesToCols: map<string, seq<int>>,
                       reducer: seq<seq<real>> -> seq<seq<real>>): (r: Result<seq<seq<real>>>)
    requires forall i :: 0 <= i < |full| ==> |full[i]| == width
    ensures r.Ok? ==> IsBlock(r.value, |full|)
  {
    if tissue !in tissuesToCols then Err(UnknownTissue(tissue))
    else
      var cols := tissuesToCols[tissue];
      match Gather(full, width, cols)
      case None => Err(ColumnOutOfRange(tissue))
      case Some(tissueMtx) =>
        if |cols| < NPcomp then Err(InsufficientColumns(tissue))
        else
          var reduced := reducer(tissueMtx);
          if IsBlock(reduced, |full|) then Ok(reduced) else Err(ReducerFailed(tissue))
  }

  /** A tissue is reduced exactly when it has a column list, every listed column is inside
      the matrix, there are at least `NPcomp` of them and the reducer returns a block of the
      right shape; the block is then the reducer's image of the gathered columns. The checks
      happen in that order, so the error names the first one that fails. */
  lemma {:induction false} TissueBlockMeaning(full: seq<seq<real>>, width: nat, tissue: string,
                                              tissuesToCols: map<string, seq<int>>,
                                              reducer: seq<seq<real>> -> seq<seq<real>>)
    requires forall i :: 0 <= i < |full| ==> |full[i]| == width
    ensures var r := TissueBlock(full, width, tissue, tissuesToCols, reducer);
            && (tissue !in tissuesToCols ==> r == Err(UnknownTissue(tissue)))
            && (tissue in tissuesToCols ==>
                  var cols := tissuesToCols[tissue];
                  var inRange := forall k :: 0 <= k < |cols| ==> ColumnInRange(cols[k], width);
                  && (!inRange ==> r == Err(ColumnOutOfRange(tissue)))
                  && (inRange && |cols| < NPcomp ==> r == Err(InsufficientColumns(tissue)))
                  && (inRange && |cols| >= NPcomp ==>
                        var reduced := reducer(Gather(full, width, cols).value);
                        r == if IsBlock(reduced, |full|) then Ok(reduced) else Err(ReducerFailed(tissue))))
  {
  }

  /** The reduction of one tissue, as the per-tissue loop applies it. */
  function BlockParser(full: seq<seq<real>>, width: nat, tissuesToCols: map<string, seq<int>>,
                       reducer: seq<seq<real>> -> seq<seq<real>>): string --> Result<seq<seq<real>>>
  {
    tissue requires forall i :: 0 <= i < |full| ==> |full[i]| == width =>
      TissueBlock(full, width, tissue, tissuesToCols, reducer)
  }

  /** The result of every listed tissue, in list order, for a given per-tissue reduction. */
  function TissueResults(tissues: seq<string>, blockOf: string --> Result<seq<seq<real>>>)
    : (r: seq<Result<seq<seq<real>>>>)
    requires forall t :: t in tissues ==> blockOf.requires(t)
    ensures |r| == |tissues| && forall idx :: 0 <= idx < |tissues| ==> r[idx] == blockOf(tissues[idx])
  {
    seq(|tissues|, idx requires 0 <= idx < |tissues| => blockOf(tissues[idx]))
  }

  /** The block of every listed tissue, in list order. */
  function TissueBlocks(full: seq<seq<real>>, width: nat, tissues: seq<string>,
                        tissuesToCols: map<string, seq<int>>,
                        reducer: seq<seq<real>> -> seq<seq<real>>): (r: seq<Result<seq<seq<real>>>>)
    requires forall i :: 0 <= i < |full| ==> |full[i]| == width
    ensures |r| == |tissues| && forall idx :: 0 <= idx < |tissues| ==>
              r[idx] == TissueBlock(full, width, tissues[idx], tissuesToCols, reducer)
  {
    TissueResults(tissues, BlockParser(full, width, tissuesToCols, reducer))
  }

  /** Component `c` of tissue `k` sits in reduced column `NPcomp*k + c`, and that column
      belongs to no other tissue or component. */
  lemma BlockLayout(k: nat, c: nat)
    requires c < NPcomp
    ensures (NPcomp * k + c) / NPcomp == k && (NPcomp * k + c) % NPcomp == c
  {
  }

  /** Every reduced column is component `j % NPcomp` of tissue `j / NPcomp`: the tissue
      blocks cover all `NPcomp * numTissues` columns. */
  lemma ColumnOwner(j: nat, numTissues: nat)
    requires j < NPcomp * numTissues
    ensures j / NPcomp < numTissues && j % NPcomp < NPcomp && j == NPcomp * (j / NPcomp) + j % NPcomp
  {
  }

  /** `reduced_mtx[:, block] = reduced_tissue_mtx`: the block's columns take the reduced
      values and every other cell keeps its value. */
  method WriteBlock(reducedMtx: array2<real>, idx: nat, block: seq<seq<real>>)
    requires IsBlock(block, reducedMtx.Length0) && NPcomp * (idx + 1) <= reducedMtx.Length1
    modifies reducedMtx
    ensures forall i, c :: 0 <= i < reducedMtx.Length0 && 0 <= c < NPcomp ==>
              reducedMtx[i, NPcomp * idx + c] == block[i][c]
    ensures forall i, j :: 0 <= i < reducedMtx.Length0 && 0 <= j < reducedMtx.Length1 &&
                           !(NPcomp * idx <= j < NPcomp * (idx + 1)) ==>
              reducedMtx[i, j] == old(reducedMtx[i, j])
  {
    forall i, c | 0 <= i < reducedMtx.Length0 && 0 <= c < NPcomp {
      reducedMtx[i, NPcomp * idx + c] := block[i][c];
    }
  }

  /** `for t_idx in pca_tissues_to_cols[tissue]: reduced_cols[t_idx] = tissue`. */
  method LabelBlock(reducedCols: array<string>, idx: nat, tissue: string)
    requires NPcomp * (idx + 1) <= reducedCols.Length
    modifies reducedCols
    ensures forall j :: 0 <= j < reducedCols.Length ==>
              reducedCols[j] == if NPcomp * idx <= j < NPcomp * (idx + 1) then tissue else old(reducedCols[j])
  {
    var tIdx := NPcomp * idx;
    while tIdx < NPcomp * (idx + 1)
      invariant NPcomp * idx <= tIdx <= NPcomp * (idx + 1)
      invariant forall j :: 0 <= j < reducedCols.Length ==>
                  reducedCols[j] == if NPcomp * idx <= j < tIdx then tissue else old(reducedCols[j])
    {
      reducedCols[tIdx] := tissue;
      tIdx := tIdx + 1;
    }
  }

  /** The reduced matrix holds the blocks `done` in its first columns and zeros after them. */
  predicate MatrixHolds(reducedMtx: array2<real>, done: seq<seq<seq<real>>>)
    reads reducedMtx
  {
    && (forall k :: 0 <= k < |done| ==> IsBlock(done[k], reducedMtx.Length0))
    && (forall i, k, c :: 0 <= i < reducedMtx.Length0 && 0 <= k < |done| && 0 <= c < NPcomp &&
                          NPcomp * k + c < reducedMtx.Length1 ==>
          reducedMtx[i, NPcomp * k + c] == done[k][i][c])
    && (forall i, j :: 0 <= i < reducedMtx.Length0 && NPcomp * |done| <= j < reducedMtx.Length1 ==>
          reducedMtx[i, j] == 0.0)
  }

  /** The label row names the first `count` tissues in their columns and "NULL" after them. */
  predicate LabelsHold(reducedCols: array<string>, tissues: seq<string>, count: nat)
    reads reducedCols
  {
    forall j :: 0 <= j < reducedCols.Length ==>
      if j < NPcomp * count then j / NPcomp < |tissues| && reducedCols[j] == tissues[j / NPcomp]
      else reducedCols[j] == "NULL"
  }

  /** One pass of the per-tissue loop once its block is reduced: with the earlier tissues'
      blocks and labels in place and the rest of both arrays untouched, write tissue `idx`'s
      block and label after them. */
  method PlaceBlock(reducedMtx: array2<real>, reducedCols: array<string>, tissues: seq<string>, idx: nat,
                    ghost done: seq<seq<seq<real>>>, block: seq<seq<real>>)
    requires idx < |tissues| && |done| == idx
    requires reducedMtx.Length1 == reducedCols.Length == NPcomp * |tissues|
    requires IsBlock(block, reducedMtx.Length0)
    requires MatrixHolds(reducedMtx, done) && LabelsHold(reducedCols, tissues, idx)
    modifies reducedMtx, reducedCols
    ensures MatrixHolds(reducedMtx, done + [block]) && LabelsHold(reducedCols, tissues, idx + 1)
  {
    WriteBlock(reducedMtx, idx, block);
    LabelBlock(reducedCols, idx, tissues[idx]);
    var after := done + [block];
    forall i, k, c | 0 <= i < reducedMtx.Length0 && 0 <= k < |after| && 0 <= c < NPcomp &&
                     NPcomp * k + c < reducedMtx.Length1
      ensures reducedMtx[i, NPcomp * k + c] == after[k][i][c]
    {
      if k < idx {
        assert after[k] == done[k];
      }
    }
    forall j | 0 <= j < reducedCols.Length && j < NPcomp * (idx + 1)
      ensures j / NPcomp < |tissues| && reducedCols[j] == tissues[j / NPcomp]
    {
      ColumnOwner(j, |tissues|);
      if NPcomp * idx <= j {
        assert j / NPcomp == idx;
      }
    }
  }

  /** The per-tissue loop, for any per-tissue reduction: `reduced_mtx` starts as zeros and
      `reduced_cols` as "NULL"; tissue `idx` writes its block and labels into columns
      `NPcomp*idx ..`, and the loop stops at the first tissue that cannot be reduced. On
      success component `c` of tissue `k` is in column `NPcomp*k + c` and every column
      carries its tissue's name. */
  method PlaceBlocks(numRows: nat, tissues: seq<string>, blockOf: string --> Result<seq<seq<real>>>)
    returns (r: Result<(array2<real>, array<string>)>)
    requires forall t :: t in tissues ==> blockOf.requires(t)
    requires forall t :: t in tissues && blockOf(t).Ok? ==> IsBlock(blockOf(t).value, numRows)
    ensures var blocks := Collect(TissueResults(tissues, blockOf));
            && (r.Err? <==> blocks.Err?)
            && (r.Err? ==> r.error == blocks.error)
            && (r.Ok? ==>
                  var (reducedMtx, reducedCols) := r.value;
                  && fresh(reducedMtx) && fresh(reducedCols)
                  && reducedMtx.Length0 == numRows
                  && reducedMtx.Length1 == reducedCols.Length == NPcomp * |tissues|
                  && |blocks.value| == |tissues|
                  && MatrixHolds(reducedMtx, blocks.value)
                  && LabelsHold(reducedCols, tissues, |tissues|))
  {
    ghost var views := TissueResults(tissues, blockOf);
    ghost var done: seq<seq<seq<real>>> := [];
    var reducedMtx := new real[numRows, NPcomp * |tissues|]((i, j) => 0.0);
    var reducedCols := new string[NPcomp * |tissues|](_ => "NULL");
    var idx := 0;
    while idx < |tissues|
      invariant 0 <= idx <= |tissues| && |done| == idx
      invariant Collect(views[..idx]) == Ok(done)
      invariant MatrixHolds(reducedMtx, done) && LabelsHold(reducedCols, tissues, idx)
    {
      var tissue := tissues[idx];
      var block := blockOf(tissue);
      CollectStep(views, idx);
      if block.Err? {
        CollectErrSticks(views, idx + 1);
        return Err(block.error);
      }
      PlaceBlock(reducedMtx, reducedCols, tissues, idx, done, block.value);
      done := done + [block.value];
      idx := idx + 1;
    }
    assert views[..idx] == views;
    return Ok((reducedMtx, reducedCols));
  }

  /** The reduction of every tissue's columns of the full matrix, laid side by side. */
  method ReduceTissues(fullMtx: array2<real>, tissues: seq<string>, tissuesToCols: map<string, seq<int>>,
                       reducer: seq<seq<real>> -> seq<seq<real>>)
    returns (r: Result<(array2<real>, array<string>)>)
    ensures var blocks := Collect(TissueBlocks(Rows(fullMtx), fullMtx.Length1, tissues, tissuesToCols, reducer));
            && (r.Err? <==> blocks.Err?)
            && (r.Err? ==> r.error == blocks.error)
            && (r.Ok? ==>
                  var (reducedMtx, reducedCols) := r.value;
                  && fresh(reducedMtx) && fresh(reducedCols)
                  && reducedMtx.Length0 == fullMtx.Length0
                  && reducedMtx.Length1 == reducedCols.Length == NPcomp * |tissues|
                  && |blocks.value| == |tissues|
                  && MatrixHolds(reducedMtx, blocks.value)
                  && LabelsHold(reducedCols, tissues, |tissues|))
  {
    var full := Rows(fullMtx);
    r := PlaceBlocks(fullMtx.Length0, tissues, BlockParser(full, fullMtx.Length1, tissuesToCols, reducer));
  }

  // ---------------------------------------------------------------------------------
  // the reduction as written

  /** The per-tissue reduction exactly as the script writes it: after the column checks it
      calls `normalize_columns`, a name the script never defines (only `normalize_column`
      exists), so every tissue that passes the checks stops with a NameError. */
  function TissueBlockAsWritten(full: seq<seq<real>>, width: nat, tissue: string,
                                tissuesToCols: map<string, seq<int>>): (r: Result<seq<seq<real>>>)
    requires forall i :: 0 <= i < |full| ==> |full[i]| == width
    ensures r.Err?
  {
    if tissue !in tissuesToCols then Err(UnknownTissue(tissue))
    else
      var cols := tissuesToCols[tissue];
      match Gather(full, width, cols)
      case None => Err(ColumnOutOfRange(tissue))
      case Some(_) =>
        if |cols| < NPcomp then Err(InsufficientColumns(tissue))
        else Err(UndefinedName("normalize_columns"))
  }

  /** As written, no tissue list yields a reduced matrix: the first tissue already fails,
      and a tissue that passes every check fails on the undefined name, where the intended
      reduction succeeds whenever the reducer returns a block. */
  lemma {:induction false} AsWrittenNeverReduces(full: seq<seq<real>>, width: nat, tissues: seq<string>,
                                                 tissuesToCols: map<string, seq<int>>,
                                                 reducer: seq<seq<real>> -> seq<seq<real>>)
    requires forall i :: 0 <= i < |full| ==> |full[i]| == width
    requires |tissues| >= 1
    ensures Collect(TissueResults(tissues, (t: string) requires forall i :: 0 <= i < |full| ==> |full[i]| == width =>
                                           TissueBlockAsWritten(full, width, t, tissuesToCols))).Err?
    ensures TissueBlockAsWritten(full, width, tissues[0], tissuesToCols) != TissueBlock(full, width, tissues[0], tissuesToCols, reducer)
            <==> TissueBlock(full, width, tissues[0], tissuesToCols, reducer).Ok? ||
                 TissueBlock(full, width, tissues[0], tissuesToCols, reducer) == Err(ReducerFailed(tissues[0]))
  {
    var blockOf := (t: string) requires forall i :: 0 <= i < |full| ==> |full[i]| == width =>
                     TissueBlockAsWritten(full, width, t, tissuesToCols);
    var rs := TissueResults(tissues, blockOf);
    CollectMeaning(rs);
    assert rs[0].Err?;
  }

  // ---------------------------------------------------------------------------------
  // the whole script

  /** What the script holds at its end: the reduced matrix, the gene id of every row, and the
      header row `first_fields + reduced_cols`. */
  datatype Reduction = Reduction(matrix: seq<seq<real>>, geneIds: seq<string>, firstRow: seq<string>)

  /** `reduced_cols` as a value: each tissue's name once per component, block after block. */
  function ReducedLabels(tissues: seq<string>): (r: seq<string>)
    ensures |r| == NPcomp * |tissues|
  {
    if tissues == [] then [] else seq(NPcomp, _ => tissues[0]) + ReducedLabels(tissues[1..])
  }

  /** Column `j` of the label row names tissue `j / NPcomp`. */
  lemma {:induction false} ReducedLabelsAt(tissues: seq<string>, j: nat)
    requires j < NPcomp * |tissues|
    ensures j / NPcomp < |tissues| && ReducedLabels(tissues)[j] == tissues[j / NPcomp]
  {
    if j >= NPcomp {
      ReducedLabelsAt(tissues[1..], j - NPcomp);
      assert (j - NPcomp) / NPcomp == j / NPcomp - 1;
    }
  }

  /** Row `i` of the reduced blocks laid side by side, block after block. */
  function ConcatRow(blocks: seq<seq<seq<real>>>, numRows: nat, i: nat): (r: seq<real>)
    requires forall k :: 0 <= k < |blocks| ==> IsBlock(blocks[k], numRows)
    requires i < numRows
    ensures |r| == NPcomp * |blocks|
  {
    if blocks == [] then []
    else
      assert IsBlock(blocks[0], numRows);
      blocks[0][i] + ConcatRow(blocks[1..], numRows, i)
  }

  /** Component `c` of tissue `k` for gene `i` lands in column `NPcomp*k + c` of row `i`, so
      no block is shifted against another and every row keeps its gene. */
  lemma {:induction false} ConcatRowCell(blocks: seq<seq<seq<real>>>, numRows: nat, i: nat, k: nat, c: nat)
    requires forall k :: 0 <= k < |blocks| ==> IsBlock(blocks[k], numRows)
    requires i < numRows && k < |blocks| && c < NPcomp
    ensures ConcatRow(blocks, numRows, i)[NPcomp * k + c] == blocks[k][i][c]
  {
    assert IsBlock(blocks[0], numRows);
    if k > 0 {
      ConcatRowCell(blocks[1..], numRows, i, k - 1, c);
      assert NPcomp * k + c - NPcomp == NPcomp * (k - 1) + c;
    }
  }

  /** `reduced_mtx` as a value: one row per gene, each the gene's rows of all blocks in turn. */
  function ReducedMatrix(blocks: seq<seq<seq<real>>>, numRows: nat): (r: seq<seq<real>>)
    requires forall k :: 0 <= k < |blocks| ==> IsBlock(blocks[k], numRows)
    ensures |r| == numRows && forall i :: 0 <= i < numRows ==> |r[i]| == NPcomp * |blocks|
  {
    seq(numRows, i requires 0 <= i < numRows => ConcatRow(blocks, numRows, i))
  }

  /** A matrix holding every block in its own columns is the blocks laid side by side. */
  lemma {:induction false} PlacedMatrix(reducedMtx: array2<real>, blocks: seq<seq<seq<real>>>)
    requires MatrixHolds(reducedMtx, blocks) && reducedMtx.Length1 == NPcomp * |blocks|
    ensures Rows(reducedMtx) == ReducedMatrix(blocks, reducedMtx.Length0)
  {
    var m := ReducedMatrix(blocks, reducedMtx.Length0);
    forall i, j | 0 <= i < reducedMtx.Length0 && 0 <= j < reducedMtx.Length1
      ensures reducedMtx[i, j] == m[i][j]
    {
      ColumnOwner(j, |blocks|);
      ConcatRowCell(blocks, reducedMtx.Length0, i, j / NPcomp, j % NPcomp);
    }
    RowsOfCells(reducedMtx, m);
  }

  /** A label row naming every column's tissue is the tissues repeated block after block. */
  lemma {:induction false} PlacedLabels(reducedCols: array<string>, tissues: seq<string>)
    requires LabelsHold(reducedCols, tissues, |tissues|) && reducedCols.Length == NPcomp * |tissues|
    ensures reducedCols[..] == ReducedLabels(tissues)
  {
    forall j | 0 <= j < reducedCols.Length
      ensures reducedCols[j] == ReducedLabels(tissues)[j]
    {
      ReducedLabelsAt(tissues, j);
    }
  }

  /** The rows a successful reading loop produces have the matrix width. */
  lemma {:induction false} MatrixRowsShape(data: seq<string>, width: nat, level: string -> Option<real>)
    requires Collect(MatrixRows(data, width, level)).Ok?
    ensures var rows := Collect(MatrixRows(data, width, level)).value;
            |rows| == |data| && forall i :: 0 <= i < |rows| ==> |rows[i]| == width
  {
    CollectMeaning(MatrixRows(data, width, level));
  }

  /** The blocks a successful per-tissue loop produces have `NPcomp` columns and a row per gene. */
  lemma {:induction false} TissueBlocksShape(full: seq<seq<real>>, width: nat, tissues: seq<string>,
                                             tissuesToCols: map<string, seq<int>>,
                                             reducer: seq<seq<real>> -> seq<seq<real>>)
    requires forall i :: 0 <= i < |full| ==> |full[i]| == width
    requires Collect(TissueBlocks(full, width, tissues, tissuesToCols, reducer)).Ok?
    ensures var blocks := Collect(TissueBlocks(full, width, tissues, tissuesToCols, reducer)).value;
            |blocks| == |tissues| && forall k :: 0 <= k < |blocks| ==> IsBlock(blocks[k], |full|)
  {
    CollectMeaning(TissueBlocks(full, width, tissues, tissuesToCols, reducer));
  }

  /** The script from the tissue list to `first_row`: each step's first failure ends it, and a
      table with no line at all leaves `first_fields` unbound (NameError), which surfaces only
      after the reduction. */
  ghost function Generated(tissueLines: seq<string>, metaFiles: map<string, seq<string>>, rpkmLines: seq<string>,
                           level: string -> Option<real>, reducer: seq<seq<real>> -> seq<seq<real>>): (r: Result<Reduction>)
    ensures tissueLines == [] ==> r == Err(EmptyFile(TissueListPath))
    ensures r.Ok? ==> tissueLines != [] && rpkmLines != []
  {
    match GetTissueList(tissueLines)
    case Err(e) => Err(e)
    case Ok(tissues) =>
      match TissuesToCols(tissues, MetaColumns(metaFiles))
      case Err(e) => Err(e)
      case Ok(tissuesToCols) =>
        var width := ColumnsIn(tissuesToCols, tissuesToCols.Keys);
        var data := DataLines(rpkmLines);
        match Collect(MatrixRows(data, width, level))
        case Err(e) => Err(e)
        case Ok(rows) =>
          MatrixRowsShape(data, width, level);
          match Collect(TissueBlocks(rows, width, tissues, tissuesToCols, reducer))
          case Err(e) => Err(e)
          case Ok(blocks) =>
            TissueBlocksShape(rows, width, tissues, tissuesToCols, reducer);
            if rpkmLines == [] then Err(UndefinedName("first_fields"))
            else Ok(Reduction(ReducedMatrix(blocks, |rows|), LineIds(data, GeneId),
                              FirstFields(rpkmLines[0]) + ReducedLabels(tissues)))
  }

  /** A completed run keeps genes and rows aligned: one reduced row and one gene id per data
      line of the table, the id taken from that same line, every row `NPcomp` wide per
      tissue, and a header row made of the table's first fields and the tissue labels. */
  lemma {:induction false} GeneratedAligned(tissueLines: seq<string>, metaFiles: map<string, seq<string>>,
                                            rpkmLines: seq<string>, level: string -> Option<real>,
                                            reducer: seq<seq<real>> -> seq<seq<real>>)
    requires Generated(tissueLines, metaFiles, rpkmLines, level, reducer).Ok?
    ensures GetTissueList(tissueLines).Ok? && rpkmLines != []
    ensures var red := Generated(tissueLines, metaFiles, rpkmLines, level, reducer).value;
            var tissues := GetTissueList(tissueLines).value;
            && |red.matrix| == |red.geneIds| == DataCount(rpkmLines, NHeaderLines)
            && (forall i :: 0 <= i < |red.geneIds| ==> red.geneIds[i] == GeneId(rpkmLines[i + 1]))
            && (forall i :: 0 <= i < |red.matrix| ==> |red.matrix[i]| == NPcomp * |tissues|)
            && red.firstRow == FirstFields(rpkmLines[0]) + ReducedLabels(tissues)
  {
    var tissues := GetTissueList(tissueLines).value;
    var m := TissuesToCols(tissues, MetaColumns(metaFiles)).value;
    var width := ColumnsIn(m, m.Keys);
    MatrixRowsShape(DataLines(rpkmLines), width, level);
    var rows := Collect(MatrixRows(DataLines(rpkmLines), width, level)).value;
    TissueBlocksShape(rows, width, tissues, m, reducer);
  }

  /** The reading half of the script: count the genes, allocate `full_mtx` and `gene_ids`,
      and fill them. */
  method ReadMatrix(rpkmLines: seq<string>, numFeatures: nat, level: string -> Option<real>)
    returns (r: Result<(array2<real>, array<string>, Option<seq<string>>)>)
    ensures var rows := Collect(MatrixRows(DataLines(rpkmLines), numFeatures, level));
            && (r.Err? <==> rows.Err?)
            && (r.Err? ==> r.error == rows.error)
            && (r.Ok? ==>
                  var (fullMtx, geneIds, firstFields) := r.value;
                  && fullMtx.Length1 == numFeatures
                  && Rows(fullMtx) == rows.value
                  && geneIds[..] == LineIds(DataLines(rpkmLines), GeneId)
                  && firstFields == (if rpkmLines == [] then None else Some(FirstFields(rpkmLines[0]))))
  {
    var numGenes := CountGenes(rpkmLines);
    var fullMtx := new real[numGenes, numFeatures];
    var geneIds := new string[numGenes](_ => "ID");
    var filled := FillMatrix(rpkmLines, fullMtx, geneIds, level);
    if filled.Err? {
      return Err(filled.error);
    }
    assert geneIds[..] == LineIds(DataLines(rpkmLines), GeneId);
    return Ok((fullMtx, geneIds, filled.value));
  }

  /** The `__main__` block, with the files it opens given as their lines: the tissue list,
      each tissue's metadata file by path, and the expression table. */
  method GeneratePca(tissueLines: seq<string>, metaFiles: map<string, seq<string>>, rpkmLines: seq<string>,
                     level: string -> Option<real>, reducer: seq<seq<real>> -> seq<seq<real>>)
    returns (r: Result<Reduction>)
    ensures r == Generated(tissueLines, metaFiles, rpkmLines, level, reducer)
  {
    var tissuesOr := GetTissueList(tissueLines);
    if tissuesOr.Err? {
      return Err(tissuesOr.error);
    }
    var tissues := tissuesOr.value;
    var mapOr := GetTissuesToCols(tissues, metaFiles);
    if mapOr.Err? {
      return Err(mapOr.error);
    }
    var tissuesToCols := mapOr.value;
    var numFeatures := CountFeatures(tissuesToCols);
    var read := ReadMatrix(rpkmLines, numFeatures, level);
    if read.Err? {
      return Err(read.error);
    }
    var (fullMtx, geneIds, firstFields) := read.value;
    var reduced := ReduceTissues(fullMtx, tissues, tissuesToCols, reducer);
    if reduced.Err? {
      return Err(reduced.error);
    }
    var (reducedMtx, reducedCols) := reduced.value;
    if firstFields.None? {
      return Err(UndefinedName("first_fields"));
    }
    ghost var blocks := Collect(TissueBlocks(Rows(fullMtx), fullMtx.Length1, tissues, tissuesToCols, reducer)).value;
    PlacedMatrix(reducedMtx, blocks);
    PlacedLabels(reducedCols, tissues);
    r := Ok(Reduction(Rows(reducedMtx), geneIds[..], firstFields.value + reducedCols[..]));
  }
}
