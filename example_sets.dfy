/** Positive and negative examples read from the expression table
    (GO_prediction/GO_utils.py). A table line is `index<TAB>gene_id[.version]<TAB>..<TAB>..<TAB>`
    followed by the expression columns; the first line is a header. `float` is the parameter
    `number`, which yields `None` where Python raises ValueError. */
module ExampleSets {
  import opened Outcome
  import opened Text
  import opened Decimal

  // ---------------------------------------------------------------------------------
  // get_positive_examples

  /** `line[tab1+1:tab2]` with `tab1 = line.find('\t')` and `tab2 = line.find('\t', tab1+1)`.
      The raw line is used: nothing is stripped. */
  function BetweenFirstTabs(line: string): (r: string)
    ensures |r| <= |line| && forall k :: 0 <= k < |r| ==> r[k] != Tab
  {
    var tab1 := Find(line, Tab, 0);
    var tab2 := Find(line, Tab, tab1 + 1);
    Slice(line, tab1 + 1, tab2)
  }

  /** With at least two tabs this is field 1 of `line.split('\t')`. */
  lemma {:induction false} BetweenFirstTabsIsSecondField(line: string)
    requires |Split(line, Tab)| >= 3
    ensures BetweenFirstTabs(line) == Split(line, Tab)[1]
  {
    SplitSecond(line, Tab);
    var i := IndexOf(line, Tab);
    var j := IndexOf(line[i + 1..], Tab);
    FindFromStart(line, Tab);
    FindInRest(line, Tab, i + 1);
    BetweenTabsAt(line, i, i + 1 + j);
    DropTake(line, i + 1, j);
  }

  lemma {:induction false} DropTake(s: string, a: nat, b: nat)
    requires a + b <= |s|
    ensures s[a..][..b] == s[a..a + b]
  {
  }

  lemma {:induction false} BetweenTabsAt(line: string, tab1: nat, tab2: nat)
    requires Find(line, Tab, 0) == tab1 && Find(line, Tab, tab1 + 1) == tab2
    requires tab1 < tab2 <= |line|
    ensures BetweenFirstTabs(line) == line[tab1 + 1..tab2]
  {
    SliceInside(line, tab1 + 1, tab2);
  }

  lemma {:induction false} FindFromStart(s: string, c: char)
    ensures Find(s, c, 0) == IndexOf(s, c)
  {
    assert s[0..] == s;
  }

  lemma {:induction false} FindInRest(s: string, c: char, lo: nat)
    requires lo <= |s| && IndexOf(s[lo..], c) >= 0
    ensures Find(s, c, lo) == lo + IndexOf(s[lo..], c)
  {
  }

  /** Field 1 of a split with at least three fields lies between the first two separators. */
  lemma {:induction false} SplitSecond(s: string, sep: char)
    requires |Split(s, sep)| >= 3
    ensures var i := IndexOf(s, sep);
            0 <= i && IndexOf(s[i + 1..], sep) >= 0 &&
            Split(s, sep)[1] == s[i + 1..][..IndexOf(s[i + 1..], sep)]
  {
    SplitHead(s, sep);
    var i := IndexOf(s, sep);
    SplitHead(s[i + 1..], sep);
  }

  lemma {:induction false} SliceInside(s: string, lo: nat, hi: nat)
    requires lo <= hi <= |s|
    ensures Slice(s, lo, hi) == s[lo..hi]
  {
  }

  /** Without a tab both finds return -1, and the slice `line[0:-1]` drops the last
      character (the line terminator, when there is one). */
  lemma {:induction false} BetweenFirstTabsWithoutTab(line: string)
    requires Tab !in line
    ensures BetweenFirstTabs(line) == if |line| == 0 then [] else line[..|line| - 1]
  {
    FindFromStart(line, Tab);
    assert Find(line, Tab, 0) == -1;
  }

  /** The gene id the positive pass matches: the text between the first two tabs, version cut. */
  function PositiveGeneId(line: string): string
  {
    StripVersion(BetweenFirstTabs(line))
  }

  /** What a pass reads from one data line: its gene id and its expression fields. */
  datatype Row = Row(geneId: string, levels: seq<string>)

  /** The positive pass's view of a line. */
  function PositiveRow(line: string): Row
  {
    Row(PositiveGeneId(line), FeatureFields(line))
  }

  /** The positive pass's view of every data line. */
  function PositiveRows(data: seq<string>): (r: seq<Row>)
    ensures |r| == |data| && forall k :: 0 <= k < |data| ==> r[k] == PositiveRow(data[k])
  {
    seq(|data|, k requires 0 <= k < |data| => PositiveRow(data[k]))
  }

  datatype Positives = Positives(features: seq<seq<real>>, rows: seq<nat>, geneIds: seq<string>)

  /** A row's expression fields convert and fill a feature row of `numFeatures` values. */
  predicate Convertible(levels: seq<string>, number: string -> Option<real>, numFeatures: nat)
  {
    ParseLevels(levels, number).Some? && |levels| == numFeatures
  }

  /** What the positive pass has gathered after the rows `rs`: each row whose gene id is a
      target and has not been taken yet contributes its converted expression fields, its
      0-based row index and its gene id. A taken row with a field `float` rejects, or whose
      width is not `numFeatures` (the ValueError of appending a row of the wrong shape),
      stops the pass. */
  function PositivesOf(rs: seq<Row>, targets: set<string>, numFeatures: nat,
                       number: string -> Option<real>): (r: Result<Positives>)
    ensures r.Ok? ==> |r.value.features| == |r.value.rows| == |r.value.geneIds| <= |rs|
    ensures r.Err? ==> (r.error.BadNumber? || r.error.RowWidth?) && r.error.row < |rs|
  {
    if rs == [] then Ok(Positives([], [], []))
    else
      match PositivesOf(rs[..|rs| - 1], targets, numFeatures, number)
      case Err(e) => Err(e)
      case Ok(p) =>
        var i := |rs| - 1;
        if rs[i].geneId in targets && rs[i].geneId !in p.geneIds then
          match ParseLevels(rs[i].levels, number)
          case None => Err(BadNumber(i))
          case Some(values) =>
            if |values| != numFeatures then Err(RowWidth(i))
            else Ok(Positives(p.features + [values], p.rows + [i], p.geneIds + [rs[i].geneId]))
        else Ok(p)
  }

  lemma {:induction false} PositivesErrSticks(rs: seq<Row>, targets: set<string>, numFeatures: nat,
                                              number: string -> Option<real>, n: nat)
    requires n <= |rs|
    requires PositivesOf(rs[..n], targets, numFeatures, number).Err?
    ensures PositivesOf(rs, targets, numFeatures, number) == PositivesOf(rs[..n], targets, numFeatures, number)
    decreases |rs| - n
  {
    if n < |rs| {
      assert rs[..n + 1][..n] == rs[..n];
      PositivesErrSticks(rs, targets, numFeatures, number, n + 1);
    } else {
      assert rs[..n] == rs;
    }
  }

  /** One more row: how the pass treats row `i` given what it gathered before. */
  lemma PositivesStep(rs: seq<Row>, targets: set<string>, numFeatures: nat, number: string -> Option<real>, i: nat)
    requires i < |rs| && PositivesOf(rs[..i], targets, numFeatures, number).Ok?
    ensures var p := PositivesOf(rs[..i], targets, numFeatures, number).value;
            var row := rs[i];
            PositivesOf(rs[..i + 1], targets, numFeatures, number) ==
              if row.geneId in targets && row.geneId !in p.geneIds then
                match ParseLevels(row.levels, number)
                case None => Err(BadNumber(i))
                case Some(values) =>
                  if |values| != numFeatures then Err(RowWidth(i))
                  else Ok(Positives(p.features + [values], p.rows + [i], p.geneIds + [row.geneId]))
              else Ok(p)
  {
    assert rs[..i + 1][..i] == rs[..i];
  }

  /** `get_positive_examples`: one pass over the table after its header. Returns the feature
      rows, their 0-based row indices, the gene ids in the same order, and the number of data
      lines read. */
  method GetPositiveExamples(lines: seq<string>, targets: set<string>, numFeatures: nat,
                             number: string -> Option<real>)
    returns (r: Result<Positives>, scanned: nat)
    ensures r == PositivesOf(PositiveRows(DataLines(lines)), targets, numFeatures, number)
    ensures r.Ok? ==> scanned == |DataLines(lines)|
  {
    ghost var rs := PositiveRows(DataLines(lines));
    var geneFeatures: seq<seq<real>> := [];
    var positiveExampleRows: seq<nat> := [];
    var geneIdsOrdered: seq<string> := [];
    var i := 0;
    var firstLine := true;
    var n := 0;
    while n < |lines|
      invariant 0 <= n <= |lines|
      invariant firstLine <==> n == 0
      invariant i == if n == 0 then 0 else n - 1
      invariant i <= |rs|
      invariant PositivesOf(rs[..i], targets, numFeatures, number)
                == Ok(Positives(geneFeatures, positiveExampleRows, geneIdsOrdered))
    {
      var line := lines[n];
      if firstLine {
        firstLine := false;
        n := n + 1;
        continue;
      }
      assert rs[i] == PositiveRow(line);
      PositivesStep(rs, targets, numFeatures, number, i);
      var curEnsId := PositiveGeneId(line);
      if curEnsId in targets {
        if curEnsId !in geneIdsOrdered {
          var expLevels := ParseLevels(FeatureFields(line), number);
          if expLevels.None? {
            PositivesErrSticks(rs, targets, numFeatures, number, i + 1);
            return Err(BadNumber(i)), i;
          }
          if |expLevels.value| != numFeatures {
            PositivesErrSticks(rs, targets, numFeatures, number, i + 1);
            return Err(RowWidth(i)), i;
          }
          positiveExampleRows := positiveExampleRows + [i];
          geneIdsOrdered := geneIdsOrdered + [curEnsId];
          geneFeatures := geneFeatures + [expLevels.value];
        }
      }
      i := i + 1;
      n := n + 1;
    }
    assert rs[..i] == rs;
    return Ok(Positives(geneFeatures, positiveExampleRows, geneIdsOrdered)), i;
  }

  /** The three outputs line up, the row indices increase, and every gene id is a target,
      taken once, together with the converted expression fields of its own row. */
  lemma {:induction false} PositivesAligned(rs: seq<Row>, targets: set<string>, numFeatures: nat,
                                            number: string -> Option<real>)
    requires PositivesOf(rs, targets, numFeatures, number).Ok?
    ensures var p := PositivesOf(rs, targets, numFeatures, number).value;
            && |p.features| == |p.rows| == |p.geneIds|
            && (forall a, b :: 0 <= a < b < |p.rows| ==> p.rows[a] < p.rows[b])
            && (forall a, b :: 0 <= a < b < |p.geneIds| ==> p.geneIds[a] != p.geneIds[b])
            && (forall k :: 0 <= k < |p.rows| ==>
                  && p.rows[k] < |rs|
                  && p.geneIds[k] in targets
                  && p.geneIds[k] == rs[p.rows[k]].geneId
                  && ParseLevels(rs[p.rows[k]].levels, number) == Some(p.features[k])
                  && |p.features[k]| == numFeatures)
  {
    if rs != [] {
      var pre := rs[..|rs| - 1];
      PositivesAligned(pre, targets, numFeatures, number);
      assert forall j :: 0 <= j < |pre| ==> pre[j] == rs[j];
    }
  }

  /** The last row of a successful pass is taken exactly when it is a target not taken before. */
  lemma PositivesLast(rs: seq<Row>, targets: set<string>, numFeatures: nat, number: string -> Option<real>)
    requires rs != [] && PositivesOf(rs, targets, numFeatures, number).Ok?
    ensures var i := |rs| - 1;
            var q := PositivesOf(rs[..i], targets, numFeatures, number).value;
            var p := PositivesOf(rs, targets, numFeatures, number).value;
            if rs[i].geneId in targets && rs[i].geneId !in q.geneIds
            then p.rows == q.rows + [i] && p.geneIds == q.geneIds + [rs[i].geneId]
            else p == q
  {
  }

  /** First occurrence wins and no target is missed: no row before the one kept for a gene
      has that gene id, and every target gene id that occurs is kept. */
  lemma {:induction false} PositivesFirstOccurrence(rs: seq<Row>, targets: set<string>, numFeatures: nat,
                                                    number: string -> Option<real>)
    requires PositivesOf(rs, targets, numFeatures, number).Ok?
    ensures var p := PositivesOf(rs, targets, numFeatures, number).value;
            && |p.rows| == |p.geneIds|
            && (forall k, j :: 0 <= k < |p.rows| && 0 <= j < p.rows[k] && p.rows[k] <= |rs| ==>
                  rs[j].geneId != p.geneIds[k])
            && (forall j :: 0 <= j < |rs| && rs[j].geneId in targets ==> rs[j].geneId in p.geneIds)
  {
    if rs != [] {
      var pre, i := rs[..|rs| - 1], |rs| - 1;
      PositivesFirstOccurrence(pre, targets, numFeatures, number);
      PositivesAligned(pre, targets, numFeatures, number);
      assert forall j :: 0 <= j < |pre| ==> pre[j] == rs[j];
      var q := PositivesOf(pre, targets, numFeatures, number).value;
      var p := PositivesOf(rs, targets, numFeatures, number).value;
      var taken := rs[i].geneId in targets && rs[i].geneId !in q.geneIds;
      PositivesLast(rs, targets, numFeatures, number);
      forall k, j | 0 <= k < |p.rows| && 0 <= j < p.rows[k] && p.rows[k] <= |rs|
        ensures rs[j].geneId != p.geneIds[k]
      {
        if k == |q.rows| {
          assert taken && p.rows[k] == i && p.geneIds[k] == rs[i].geneId;
          assert pre[j] == rs[j];
          assert rs[j].geneId in targets ==> rs[j].geneId in q.geneIds;
        } else {
          assert p.rows[k] == q.rows[k] && p.geneIds[k] == q.geneIds[k];
        }
      }
    }
  }

  /** Row `j` is a target row whose gene id no earlier row carries: the rows the pass takes. */
  predicate FirstTarget(rs: seq<Row>, targets: set<string>, j: nat)
    requires j < |rs|
  {
    rs[j].geneId in targets && forall j' :: 0 <= j' < j ==> rs[j'].geneId != rs[j].geneId
  }

  /** Whether a row is a first target row does not depend on the rows after it. */
  lemma FirstTargetPrefix(rs: seq<Row>, targets: set<string>, n: nat)
    requires n <= |rs|
    ensures forall j :: 0 <= j < n ==> FirstTarget(rs[..n], targets, j) == FirstTarget(rs, targets, j)
  {
    assert forall j :: 0 <= j < n ==> rs[..n][j] == rs[j];
  }

  /** After a successful prefix, the last row is taken exactly when it is a first target row. */
  lemma LastTakenIffFirst(rs: seq<Row>, targets: set<string>, numFeatures: nat, number: string -> Option<real>)
    requires rs != [] && PositivesOf(rs[..|rs| - 1], targets, numFeatures, number).Ok?
    ensures var i := |rs| - 1;
            var q := PositivesOf(rs[..i], targets, numFeatures, number).value;
            rs[i].geneId in targets && rs[i].geneId !in q.geneIds <==> FirstTarget(rs, targets, i)
  {
    var pre, i := rs[..|rs| - 1], |rs| - 1;
    var q := PositivesOf(pre, targets, numFeatures, number).value;
    PositivesFirstOccurrence(pre, targets, numFeatures, number);
    PositivesAligned(pre, targets, numFeatures, number);
    assert forall j :: 0 <= j < |pre| ==> pre[j] == rs[j];
    if rs[i].geneId in targets {
      if rs[i].geneId in q.geneIds {
        var k :| 0 <= k < |q.geneIds| && q.geneIds[k] == rs[i].geneId;
        assert rs[q.rows[k]].geneId == rs[i].geneId;
      } else {
        forall j' | 0 <= j' < i ensures rs[j'].geneId != rs[i].geneId {
          assert pre[j'] == rs[j'];
        }
      }
    }
  }

  /** After a successful prefix, the pass fails at the last row exactly when that row is a
      first target row that does not convert, and then with the reason the code meets first. */
  lemma PositivesLastStep(rs: seq<Row>, targets: set<string>, numFeatures: nat, number: string -> Option<real>)
    requires rs != [] && PositivesOf(rs[..|rs| - 1], targets, numFeatures, number).Ok?
    ensures var i := |rs| - 1;
            var r := PositivesOf(rs, targets, numFeatures, number);
            && (r.Ok? <==> !FirstTarget(rs, targets, i) || Convertible(rs[i].levels, number, numFeatures))
            && (r.Err? ==> r.error.row == i && (r.error.BadNumber? <==> ParseLevels(rs[i].levels, number).None?))
  {
    LastTakenIffFirst(rs, targets, numFeatures, number);
  }

  /** What PositivesFails states about `rs`: the pass succeeds exactly when every row it
      takes converts, and otherwise fails at the first row that does not, for the reason the
      code meets first. */
  predicate FailsAtFirstBadTarget(rs: seq<Row>, targets: set<string>, numFeatures: nat, number: string -> Option<real>)
  {
    && (PositivesOf(rs, targets, numFeatures, number).Ok? <==>
        forall j :: 0 <= j < |rs| && FirstTarget(rs, targets, j) ==> Convertible(rs[j].levels, number, numFeatures))
    && (PositivesOf(rs, targets, numFeatures, number).Err? ==>
        var e := PositivesOf(rs, targets, numFeatures, number).error;
        && e.row < |rs|
        && FirstTarget(rs, targets, e.row)
        && !Convertible(rs[e.row].levels, number, numFeatures)
        && (e.BadNumber? <==> ParseLevels(rs[e.row].levels, number).None?)
        && (e.RowWidth? <==> ParseLevels(rs[e.row].levels, number).Some? && |rs[e.row].levels| != numFeatures)
        && forall j' :: 0 <= j' < e.row && FirstTarget(rs, targets, j') ==>
             Convertible(rs[j'].levels, number, numFeatures))
  }

  /** The induction step of PositivesFails: from the rows before the last one to all rows. */
  lemma PositivesFailsStep(rs: seq<Row>, targets: set<string>, numFeatures: nat, number: string -> Option<real>)
    requires rs != [] && FailsAtFirstBadTarget(rs[..|rs| - 1], targets, numFeatures, number)
    ensures FailsAtFirstBadTarget(rs, targets, numFeatures, number)
  {
    var pre, i := rs[..|rs| - 1], |rs| - 1;
    FirstTargetPrefix(rs, targets, i);
    assert forall j :: 0 <= j < i ==> pre[j] == rs[j];
    if PositivesOf(pre, targets, numFeatures, number).Ok? {
      PositivesLastStep(rs, targets, numFeatures, number);
      assert forall j :: 0 <= j < i && FirstTarget(rs, targets, j) ==> Convertible(rs[j].levels, number, numFeatures);
      if PositivesOf(rs, targets, numFeatures, number).Ok? {
        forall j | 0 <= j < |rs| && FirstTarget(rs, targets, j)
          ensures Convertible(rs[j].levels, number, numFeatures)
        {
          if j == i {
            assert !FirstTarget(rs, targets, i) || Convertible(rs[i].levels, number, numFeatures);
          }
        }
      } else {
        assert FirstTarget(rs, targets, i) && !Convertible(rs[i].levels, number, numFeatures);
      }
    } else {
      var e := PositivesOf(pre, targets, numFeatures, number).error;
      assert PositivesOf(rs, targets, numFeatures, number) == Err(e);
      assert FirstTarget(rs, targets, e.row) && !Convertible(rs[e.row].levels, number, numFeatures);
    }
  }

  /** The pass fails exactly when a row it takes (a target gene's first row) does not
      convert to `num_features` numbers, and it reports the first such row: BadNumber iff
      some field is not a number, RowWidth iff all are and the width differs. */
  lemma {:induction false} PositivesFails(rs: seq<Row>, targets: set<string>, numFeatures: nat,
                                          number: string -> Option<real>)
    ensures PositivesOf(rs, targets, numFeatures, number).Ok? <==>
            forall j :: 0 <= j < |rs| && FirstTarget(rs, targets, j) ==> Convertible(rs[j].levels, number, numFeatures)
    ensures PositivesOf(rs, targets, numFeatures, number).Err? ==>
            var e := PositivesOf(rs, targets, numFeatures, number).error;
            && e.row < |rs|
            && FirstTarget(rs, targets, e.row)
            && !Convertible(rs[e.row].levels, number, numFeatures)
            && (e.BadNumber? <==> ParseLevels(rs[e.row].levels, number).None?)
            && (e.RowWidth? <==> ParseLevels(rs[e.row].levels, number).Some? && |rs[e.row].levels| != numFeatures)
            && forall j' :: 0 <= j' < e.row && FirstTarget(rs, targets, j') ==>
                 Convertible(rs[j'].levels, number, numFeatures)
  {
    if rs != [] {
      PositivesFails(rs[..|rs| - 1], targets, numFeatures, number);
      PositivesFailsStep(rs, targets, numFeatures, number);
    }
  }

  // ---------------------------------------------------------------------------------
  // get_negative_examples

  /** The indices `0 .. n-1` that are in `negRows`, in increasing order. */
  function SelectedRows(n: nat, negRows: set<int>): seq<nat>
  {
    if n == 0 then [] else SelectedRows(n - 1, negRows) + (if n - 1 in negRows then [n - 1] else [])
  }

  /** The selection is increasing and holds exactly the indices below `n` in `negRows`. */
  lemma {:induction false} SelectedRowsExactly(n: nat, negRows: set<int>)
    ensures forall a, b :: 0 <= a < b < |SelectedRows(n, negRows)| ==>
              SelectedRows(n, negRows)[a] < SelectedRows(n, negRows)[b]
    ensures forall j: nat :: j in SelectedRows(n, negRows) <==> j < n && j in negRows
  {
    if n > 0 {
      var pre := SelectedRows(n - 1, negRows);
      var sel := SelectedRows(n, negRows);
      SelectedRowsExactly(n - 1, negRows);
      assert sel == pre + (if n - 1 in negRows then [n - 1] else []);
      forall a, b | 0 <= a < b < |sel| ensures sel[a] < sel[b] {
        if b < |pre| {
          assert sel[a] == pre[a] && sel[b] == pre[b];
        } else {
          assert sel[a] == pre[a] && pre[a] in pre;
        }
      }
    }
  }

  /** A line has the gene id field the negative pass reads. */
  predicate HasGeneIdField(line: string) { |Fields(line)| >= 2 }

  /** The gene id the negative pass reads: field 1 of the stripped, split line, version cut. */
  function NegativeGeneId(line: string): string
    requires HasGeneIdField(line)
  {
    StripVersion(Fields(line)[1])
  }

  /** The negative pass's view of a line: nothing when the line has no gene id field. */
  function NegativeRow(line: string): Option<Row>
  {
    if HasGeneIdField(line) then Some(Row(NegativeGeneId(line), FeatureFields(line))) else None
  }

  /** The negative pass's view of every data line. */
  function NegativeRows(data: seq<string>): seq<Option<Row>>
  {
    seq(|data|, k requires 0 <= k < |data| => NegativeRow(data[k]))
  }

  datatype Negatives = Negatives(features: seq<seq<real>>, geneIds: seq<string>)

  /** What the negative pass has gathered after the rows `rs`: every row whose index is in
      `negRows` contributes its converted expression fields and gene id, with no
      de-duplication. A selected row without a gene id field (IndexError), with a field
      `float` rejects, or of the wrong width (ValueError) stops it, in that order. */
  function NegativesOf(rs: seq<Option<Row>>, negRows: set<int>, numFeatures: nat,
                       number: string -> Option<real>): (r: Result<Negatives>)
    ensures r.Ok? ==> |r.value.features| == |r.value.geneIds| <= |rs|
    ensures r.Err? ==> && (r.error.MalformedLine? || r.error.BadNumber? || r.error.RowWidth?)
                       && var j := if r.error.MalformedLine? then r.error.line else r.error.row;
                       && j < |rs| && j in negRows
  {
    if rs == [] then Ok(Negatives([], []))
    else
      match NegativesOf(rs[..|rs| - 1], negRows, numFeatures, number)
      case Err(e) => Err(e)
      case Ok(p) =>
        var i := |rs| - 1;
        if i in negRows then
          match rs[i]
          case None => Err(MalformedLine(i))
          case Some(row) =>
            match ParseLevels(row.levels, number)
            case None => Err(BadNumber(i))
            case Some(values) =>
              if |values| != numFeatures then Err(RowWidth(i))
              else Ok(Negatives(p.features + [values], p.geneIds + [row.geneId]))
        else Ok(p)
  }

  lemma {:induction false} NegativesErrSticks(rs: seq<Option<Row>>, negRows: set<int>, numFeatures: nat,
                                              number: string -> Option<real>, n: nat)
    requires n <= |rs|
    requires NegativesOf(rs[..n], negRows, numFeatures, number).Err?
    ensures NegativesOf(rs, negRows, numFeatures, number) == NegativesOf(rs[..n], negRows, numFeatures, number)
    decreases |rs| - n
  {
    if n < |rs| {
      assert rs[..n + 1][..n] == rs[..n];
      NegativesErrSticks(rs, negRows, numFeatures, number, n + 1);
    } else {
      assert rs[..n] == rs;
    }
  }

  /** One more row: how the pass treats row `i` given what it gathered before. */
  lemma NegativesStep(rs: seq<Option<Row>>, negRows: set<int>, numFeatures: nat, number: string -> Option<real>, i: nat)
    requires i < |rs| && NegativesOf(rs[..i], negRows, numFeatures, number).Ok?
    ensures var p := NegativesOf(rs[..i], negRows, numFeatures, number).value;
            NegativesOf(rs[..i + 1], negRows, numFeatures, number) ==
              if i in negRows then
                match rs[i]
                case None => Err(MalformedLine(i))
                case Some(row) =>
                  match ParseLevels(row.levels, number)
                  case None => Err(BadNumber(i))
                  case Some(values) =>
                    if |values| != numFeatures then Err(RowWidth(i))
                    else Ok(Negatives(p.features + [values], p.geneIds + [row.geneId]))
              else Ok(p)
  {
    assert rs[..i + 1][..i] == rs[..i];
  }

  /** Data line `n` of the table is row `n - 1` of the negative pass. */
  lemma NegativeRowAt(lines: seq<string>, n: nat)
    requires 1 <= n < |lines|
    ensures |NegativeRows(DataLines(lines))| == |lines| - 1
    ensures NegativeRows(DataLines(lines))[n - 1] == NegativeRow(lines[n])
  {
  }

  /** A line's negative-pass view in terms of its split fields. */
  lemma NegativeRowFields(line: string)
    ensures var vals := Split(RStrip(line), Tab);
            && (NegativeRow(line).None? <==> |vals| < 2)
            && (|vals| >= 2 ==>
                  NegativeRow(line) == Some(Row(StripVersion(vals[1]), if |vals| <= 4 then [] else vals[4..])))
  {
  }

  /** NegativesStep for row `i` read from `line`, in terms of the line's split fields. */
  lemma NegativesLineStep(rs: seq<Option<Row>>, negRows: set<int>, numFeatures: nat, number: string -> Option<real>,
                          i: nat, line: string, features: seq<seq<real>>, geneIds: seq<string>)
    requires i < |rs| && rs[i] == NegativeRow(line)
    requires NegativesOf(rs[..i], negRows, numFeatures, number) == Ok(Negatives(features, geneIds))
    ensures var vals := Split(RStrip(line), Tab);
            var levels := ParseLevels(if |vals| <= 4 then [] else vals[4..], number);
            NegativesOf(rs[..i + 1], negRows, numFeatures, number) ==
              if i !in negRows then Ok(Negatives(features, geneIds))
              else if |vals| < 2 then Err(MalformedLine(i))
              else if levels.None? then Err(BadNumber(i))
              else if |levels.value| != numFeatures then Err(RowWidth(i))
              else Ok(Negatives(features + [levels.value], geneIds + [StripVersion(vals[1])]))
  {
    NegativesStep(rs, negRows, numFeatures, number, i);
    NegativeRowFields(line);
  }

  /** `get_negative_examples`: one pass over the table after its header, taking every data
      line whose 0-based index is in `negRows`. */
  method GetNegativeExamples(lines: seq<string>, negRows: set<int>, numFeatures: nat,
                             number: string -> Option<real>)
    returns (r: Result<Negatives>)
    ensures r == NegativesOf(NegativeRows(DataLines(lines)), negRows, numFeatures, number)
  {
    ghost var rs := NegativeRows(DataLines(lines));
    var geneFeaturesNeg: seq<seq<real>> := [];
    var geneIdsOrderedNeg: seq<string> := [];
    var i := 0;
    var firstLine := true;
    var n := 0;
    while n < |lines|
      invariant 0 <= n <= |lines|
      invariant firstLine <==> n == 0
      invariant i == if n == 0 then 0 else n - 1
      invariant i <= |rs|
      invariant NegativesOf(rs[..i], negRows, numFeatures, number)
                == Ok(Negatives(geneFeaturesNeg, geneIdsOrderedNeg))
    {
      var line := lines[n];
      if firstLine {
        firstLine := false;
        n := n + 1;
        continue;
      }
      NegativeRowAt(lines, n);
      NegativesLineStep(rs, negRows, numFeatures, number, i, line, geneFeaturesNeg, geneIdsOrderedNeg);
      if i in negRows {
        var vals := Split(RStrip(line), Tab);
        if |vals| < 2 {
          NegativesErrSticks(rs, negRows, numFeatures, number, i + 1);
          return Err(MalformedLine(i));
        }
        var curEnsId := StripVersion(vals[1]);
        var expLevels := ParseLevels(if |vals| <= 4 then [] else vals[4..], number);
        if expLevels.None? {
          NegativesErrSticks(rs, negRows, numFeatures, number, i + 1);
          return Err(BadNumber(i));
        }
        if |expLevels.value| != numFeatures {
          NegativesErrSticks(rs, negRows, numFeatures, number, i + 1);
          return Err(RowWidth(i));
        }
        geneIdsOrderedNeg := geneIdsOrderedNeg + [curEnsId];
        geneFeaturesNeg := geneFeaturesNeg + [expLevels.value];
      }
      i := i + 1;
      n := n + 1;
    }
    assert rs[..i] == rs;
    return Ok(Negatives(geneFeaturesNeg, geneIdsOrderedNeg));
  }

  /** The outputs correspond, position by position and in file order, to exactly the rows
      whose index is selected; each of those rows has a gene id and converts to the
      expected width. */
  lemma {:induction false} NegativesCorrespond(rs: seq<Option<Row>>, negRows: set<int>, numFeatures: nat,
                                               number: string -> Option<real>)
    requires NegativesOf(rs, negRows, numFeatures, number).Ok?
    ensures var p := NegativesOf(rs, negRows, numFeatures, number).value;
            var sel := SelectedRows(|rs|, negRows);
            && |p.features| == |p.geneIds| == |sel|
            && forall k :: 0 <= k < |sel| ==>
                 && sel[k] < |rs|
                 && rs[sel[k]].Some?
                 && p.geneIds[k] == rs[sel[k]].value.geneId
                 && ParseLevels(rs[sel[k]].value.levels, number) == Some(p.features[k])
                 && |p.features[k]| == numFeatures
  {
    if rs != [] {
      var pre := rs[..|rs| - 1];
      NegativesCorrespond(pre, negRows, numFeatures, number);
      assert forall j :: 0 <= j < |pre| ==> pre[j] == rs[j];
      SelectedRowsExactly(|pre|, negRows);
    }
  }

  /** A selected row the pass accepts: it has a gene id field and its expression fields
      convert to a row of `numFeatures` values. */
  predicate Acceptable(row: Option<Row>, number: string -> Option<real>, numFeatures: nat)
  {
    row.Some? && Convertible(row.value.levels, number, numFeatures)
  }

  /** The pass fails exactly when a selected row is not acceptable, and it reports the
      first such row with the first reason the code meets: no gene id field, then a field
      `float` rejects, then the wrong width. */
  lemma {:induction false} NegativesFails(rs: seq<Option<Row>>, negRows: set<int>, numFeatures: nat,
                                          number: string -> Option<real>)
    ensures NegativesOf(rs, negRows, numFeatures, number).Ok? <==>
            forall j :: 0 <= j < |rs| && j in negRows ==> Acceptable(rs[j], number, numFeatures)
    ensures NegativesOf(rs, negRows, numFeatures, number).Err? ==>
            var e := NegativesOf(rs, negRows, numFeatures, number).error;
            && (e.MalformedLine? || e.BadNumber? || e.RowWidth?)
            && var j := if e.MalformedLine? then e.line else e.row;
            && 0 <= j < |rs| && j in negRows
            && !Acceptable(rs[j], number, numFeatures)
            && (e.MalformedLine? <==> rs[j].None?)
            && (e.BadNumber? <==> rs[j].Some? && ParseLevels(rs[j].value.levels, number).None?)
            && forall j' :: 0 <= j' < j && j' in negRows ==> Acceptable(rs[j'], number, numFeatures)
  {
    if rs != [] {
      var pre := rs[..|rs| - 1];
      NegativesFails(pre, negRows, numFeatures, number);
      assert forall j :: 0 <= j < |pre| ==> pre[j] == rs[j];
    }
  }
}
