/** GO terms and their gene sets (GO_prediction/GO_utils.py): the `GOterm` record, sorting
    terms by gene count, expanding a term to the Ensembl genes of it and its descendants,
    and selecting the first `top` terms of the gene-count table.

    The two goatools results are inputs: `go2entrez` is what `read_ncbi_gene2go` returns
    (a GO id to its Entrez ids, in the set's iteration order) and `search` is what
    `GoSearch.add_children_gos` returns for a single id (as a list). Both are dictionaries
    with a default: an id they do not hold yields no ids. */
module GoTerms {
  import opened Outcome
  import opened Text
  import opened Decimal
  import opened IdentifierMap
  import StableSort

  /** `d[k]` for a dictionary that yields an empty collection for an absent key. */
  function Lookup<V>(d: map<string, seq<V>>, k: string): seq<V>
  {
    if k in d then d[k] else []
  }

  /** `GOterm`: a GO id, the ids below it in the ontology, and its Ensembl genes. */
  class GoTerm {
    var id: string
    var descendantIds: seq<string>
    var genes: set<string>

    constructor (id: string)
      ensures this.id == id && descendantIds == [] && genes == {}
    {
      this.id := id;
      descendantIds := [];
      genes := {};
    }

    /** `add_descendants`: ask the ontology search for the ids below this term. */
    method AddDescendants(search: map<string, seq<string>>)
      modifies this`descendantIds
      ensures descendantIds == Lookup(search, id)
    {
      descendantIds := Lookup(search, id);
    }
  }

  // ---------------------------------------------------------------------------------
  // sort_go_terms

  /** The terms of `s` that have exactly `k` genes, in their order in `s`. */
  function WithGeneCount(s: seq<GoTerm>, k: nat): seq<GoTerm>
    reads s
  {
    if s == [] then [] else (if |s[0].genes| == k then [s[0]] else []) + WithGeneCount(s[1..], k)
  }

  /** Each term's gene count, read once. */
  function GeneCounts(terms: seq<GoTerm>): map<GoTerm, nat>
    reads terms
  {
    map t | t in terms :: |t.genes|
  }

  function CountKey(counts: map<GoTerm, nat>): GoTerm -> nat
  {
    t => if t in counts then counts[t] else 0
  }

  lemma {:induction false} WithGeneCountIsWithKey(s: seq<GoTerm>, counts: map<GoTerm, nat>, k: nat)
    requires forall t :: t in s ==> t in counts && counts[t] == |t.genes|
    ensures WithGeneCount(s, k) == StableSort.WithKey(s, CountKey(counts), k)
  {
    if s != [] {
      assert s[0] in s;
      WithGeneCountIsWithKey(s[1..], counts, k);
    }
  }

  /** `sort_go_terms`: the terms by decreasing number of genes; Python's sort is stable, so
      terms with equally many genes stay in input order. */
  function SortGoTerms(terms: seq<GoTerm>): (r: seq<GoTerm>)
    reads terms
    ensures multiset(r) == multiset(terms)
    ensures forall i, j :: 0 <= i < j < |r| ==> |r[i].genes| >= |r[j].genes|
    ensures forall k: nat :: WithGeneCount(r, k) == WithGeneCount(terms, k)
  {
    var counts := GeneCounts(terms);
    var r := StableSort.SortDescending(terms, CountKey(counts));
    SortGoTermsCorrect(terms, counts, r);
    r
  }

  lemma SortGoTermsCorrect(terms: seq<GoTerm>, counts: map<GoTerm, nat>, r: seq<GoTerm>)
    requires counts == GeneCounts(terms)
    requires r == StableSort.SortDescending(terms, CountKey(counts))
    ensures multiset(r) == multiset(terms)
    ensures forall i, j :: 0 <= i < j < |r| ==> |r[i].genes| >= |r[j].genes|
    ensures forall k: nat :: WithGeneCount(r, k) == WithGeneCount(terms, k)
  {
    var key := CountKey(counts);
    StableSort.SortDescendingPermutes(terms, key);
    StableSort.SortDescendingSorted(terms, key);
    forall t | t in r ensures t in counts && counts[t] == |t.genes| {
      assert t in multiset(r);
    }
    forall i, j | 0 <= i < j < |r| ensures |r[i].genes| >= |r[j].genes| {
      assert r[i] in r && r[j] in r;
    }
    forall k: nat ensures WithGeneCount(r, k) == WithGeneCount(terms, k) {
      StableSort.SortDescendingStable(terms, key, k);
      WithGeneCountIsWithKey(r, counts, k);
      WithGeneCountIsWithKey(terms, counts, k);
    }
  }

  // ---------------------------------------------------------------------------------
  // get_go_terms_descendants

  function Elements(s: seq<string>): set<string>
  {
    set g | g in s
  }

  /** The Ensembl genes of the terms `termIds`: every Entrez id annotated to one of them
      that the mapping knows, mapped. A set, so shared genes count once. */
  function TermGenes(termIds: seq<string>, go2entrez: map<string, seq<nat>>,
                     entToEns: map<string, string>): (r: set<string>)
    ensures r <= entToEns.Values
  {
    if termIds == [] then {}
    else
      TermGenes(termIds[..|termIds| - 1], go2entrez, entToEns)
        + Elements(MapIds(Lookup(go2entrez, termIds[|termIds| - 1]), entToEns))
  }

  /** A gene belongs to the expansion exactly when an Entrez id annotated to one of the
      terms maps to it; unmapped Entrez ids contribute nothing. */
  lemma {:induction false} TermGenesMembers(termIds: seq<string>, go2entrez: map<string, seq<nat>>,
                                            entToEns: map<string, string>, g: string)
    ensures g in TermGenes(termIds, go2entrez, entToEns) <==>
            exists t :: t in termIds && g in MapIds(Lookup(go2entrez, t), entToEns)
  {
    if termIds != [] {
      var pre := termIds[..|termIds| - 1];
      var last := termIds[|termIds| - 1];
      TermGenesMembers(pre, go2entrez, entToEns, g);
      assert forall t :: t in termIds <==> t in pre || t == last by {
        assert termIds == pre + [last];
      }
      if exists t :: t in termIds && g in MapIds(Lookup(go2entrez, t), entToEns) {
        var t :| t in termIds && g in MapIds(Lookup(go2entrez, t), entToEns);
        if t != last { assert t in pre; }
      }
    }
  }

  /** Expansion only adds: more terms never lose a gene; in particular a term's own genes
      are among those of the term together with its descendants. */
  lemma TermGenesMonotone(fewer: seq<string>, more: seq<string>, go2entrez: map<string, seq<nat>>,
                          entToEns: map<string, string>)
    requires forall t :: t in fewer ==> t in more
    ensures TermGenes(fewer, go2entrez, entToEns) <= TermGenes(more, go2entrez, entToEns)
  {
    forall g | g in TermGenes(fewer, go2entrez, entToEns) ensures g in TermGenes(more, go2entrez, entToEns) {
      TermGenesMembers(fewer, go2entrez, entToEns, g);
      TermGenesMembers(more, go2entrez, entToEns, g);
    }
  }

  lemma GenesStep(entrezIds: seq<nat>, j: nat, entToEns: map<string, string>)
    requires j < |entrezIds|
    ensures var key := NatToDecimal(entrezIds[j]);
            Elements(MapIds(entrezIds[..j + 1], entToEns))
              == Elements(MapIds(entrezIds[..j], entToEns)) + (if key in entToEns then {entToEns[key]} else {})
  {
    assert entrezIds[..j + 1][..j] == entrezIds[..j];
  }

  lemma TermGenesStep(termIds: seq<string>, k: nat, go2entrez: map<string, seq<nat>>,
                      entToEns: map<string, string>)
    requires k < |termIds|
    ensures TermGenes(termIds[..k + 1], go2entrez, entToEns)
              == TermGenes(termIds[..k], go2entrez, entToEns)
                 + Elements(MapIds(Lookup(go2entrez, termIds[k]), entToEns))
  {
    assert termIds[..k + 1][..k] == termIds[..k];
  }

  /** The inner loop of `get_go_terms_descendants`: add the Ensembl id of each Entrez id
      the mapping knows. */
  method AddMappedGenes(term: GoTerm, entrezIds: seq<nat>, entToEns: map<string, string>)
    modifies term`genes
    ensures term.genes == old(term.genes) + Elements(MapIds(entrezIds, entToEns))
  {
    var j := 0;
    while j < |entrezIds|
      invariant 0 <= j <= |entrezIds|
      invariant term.genes == old(term.genes) + Elements(MapIds(entrezIds[..j], entToEns))
    {
      GenesStep(entrezIds, j, entToEns);
      var key := NatToDecimal(entrezIds[j]);
      if key in entToEns {
        term.genes := term.genes + {entToEns[key]};
      }
      j := j + 1;
    }
    assert entrezIds[..j] == entrezIds;
  }

  /** The gene-collecting loops of `get_go_terms_descendants` for one term: the term's own
      id first, then each descendant. */
  method CollectGenes(term: GoTerm, go2entrez: map<string, seq<nat>>, entToEns: map<string, string>)
    modifies term`genes
    ensures term.genes == old(term.genes) + TermGenes([term.id] + term.descendantIds, go2entrez, entToEns)
  {
    var termIds := [term.id] + term.descendantIds;
    var k := 0;
    while k < |termIds|
      invariant 0 <= k <= |termIds|
      invariant term.genes == old(term.genes) + TermGenes(termIds[..k], go2entrez, entToEns)
    {
      AddMappedGenes(term, Lookup(go2entrez, termIds[k]), entToEns);
      TermGenesStep(termIds, k, go2entrez, entToEns);
      k := k + 1;
    }
    assert termIds[..k] == termIds;
  }

  /** `term` is what `get_go_terms_descendants` makes of a gene-count table line. */
  predicate Expanded(term: GoTerm, line: string, search: map<string, seq<string>>,
                     go2entrez: map<string, seq<nat>>, entToEns: map<string, string>)
    reads term
  {
    && term.id == Split(line, Tab)[0]
    && term.descendantIds == Lookup(search, term.id)
    && term.genes == TermGenes([term.id] + term.descendantIds, go2entrez, entToEns)
  }

  /** The body of the loop of `get_go_terms_descendants` for one data line. */
  method NewExpandedTerm(line: string, search: map<string, seq<string>>,
                         go2entrez: map<string, seq<nat>>, entToEns: map<string, string>)
    returns (term: GoTerm)
    ensures fresh(term) && Expanded(term, line, search, go2entrez, entToEns)
  {
    var goId := Split(line, Tab)[0];
    term := new GoTerm(goId);
    term.AddDescendants(search);
    CollectGenes(term, go2entrez, entToEns);
  }

  /** The loop of `get_go_terms_descendants`: after two header lines, one new term per line
      of the gene-count table, in file order, with its descendants and expanded gene set. */
  method ExpandTerms(geneCountLines: seq<string>, search: map<string, seq<string>>,
                     go2entrez: map<string, seq<nat>>, entToEns: map<string, string>)
    returns (goTerms: seq<GoTerm>)
    ensures |goTerms| == DataCount(geneCountLines, 2)
    ensures forall i, j :: 0 <= i < j < |goTerms| ==> goTerms[i] != goTerms[j]
    ensures forall k :: 0 <= k < |goTerms| ==> fresh(goTerms[k])
    ensures forall k :: 0 <= k < |goTerms| ==>
              Expanded(goTerms[k], geneCountLines[k + 2], search, go2entrez, entToEns)
  {
    goTerms := [];
    var atLine := 0;
    var skipLines := 2;
    var n := 0;
    while n < |geneCountLines|
      invariant 0 <= n <= |geneCountLines|
      invariant atLine == if n < skipLines then n else skipLines
      invariant |goTerms| == n - atLine
      invariant forall i, j :: 0 <= i < j < |goTerms| ==> goTerms[i] != goTerms[j]
      invariant forall k :: 0 <= k < |goTerms| ==> fresh(goTerms[k])
      invariant forall k :: 0 <= k < |goTerms| ==>
                  Expanded(goTerms[k], geneCountLines[k + 2], search, go2entrez, entToEns)
    {
      var line := geneCountLines[n];
      if atLine < skipLines {
        atLine := atLine + 1;
        n := n + 1;
        continue;
      }
      var term := NewExpandedTerm(line, search, go2entrez, entToEns);
      goTerms := goTerms + [term];
      n := n + 1;
    }
  }

  /** `get_go_terms_descendants`: the Entrez-to-Ensembl mapping (whose failure is the
      result), then one expanded term per data line of the gene-count table. */
  method GetGoTermsDescendants(biomartLines: seq<string>, go2entrez: map<string, seq<nat>>,
                               search: map<string, seq<string>>, geneCountLines: seq<string>)
    returns (r: Result<seq<GoTerm>>)
    ensures EntrezToEnsembl(biomartLines).Err? ==> r == Err(EntrezToEnsembl(biomartLines).error)
    ensures EntrezToEnsembl(biomartLines).Ok? ==> r.Ok?
    ensures r.Ok? ==>
              var terms := r.value;
              var entToEns := EntrezToEnsembl(biomartLines).value;
              && |terms| == DataCount(geneCountLines, 2)
              && (forall i, j :: 0 <= i < j < |terms| ==> terms[i] != terms[j])
              && (forall k :: 0 <= k < |terms| ==> fresh(terms[k]))
              && forall k :: 0 <= k < |terms| ==>
                   Expanded(terms[k], geneCountLines[k + 2], search, go2entrez, entToEns)
  {
    var mapped := MapEntrezToEnsembl(biomartLines);
    if mapped.Err? {
      return Err(mapped.error);
    }
    var goTerms := ExpandTerms(geneCountLines, search, go2entrez, mapped.value);
    return Ok(goTerms);
  }

  // ---------------------------------------------------------------------------------
  // get_go_terms

  /** How many terms `get_go_terms` returns: the first `top` data rows after one header
      line, or fewer if the table is shorter (none when `top` is not positive). */
  function TopCount(lines: seq<string>, top: int): (r: nat)
    ensures r <= DataCount(lines, 1) && (top <= 0 ==> r == 0)
    ensures 0 < top ==> r <= top && (r < top ==> r == DataCount(lines, 1))
  {
    var data := DataCount(lines, 1);
    if top <= 0 then 0 else if top < data then top else data
  }

  /** `get_go_terms`: for each of the first `top` data rows of the gene-count table (after
      one header line, stopping early), the row's GO id and the Ensembl ids of its Entrez
      ids, in their order, unmapped ids left out and repeats kept. */
  method GetGoTerms(biomartLines: seq<string>, go2entrez: map<string, seq<nat>>,
                    geneCountLines: seq<string>, top: int)
    returns (r: Result<seq<(string, seq<string>)>>)
    ensures EntrezToEnsembl(biomartLines).Err? ==> r == Err(EntrezToEnsembl(biomartLines).error)
    ensures EntrezToEnsembl(biomartLines).Ok? ==> r.Ok?
    ensures r.Ok? ==>
              var entToEns := EntrezToEnsembl(biomartLines).value;
              && |r.value| == TopCount(geneCountLines, top)
              && forall k :: 0 <= k < |r.value| ==>
                   var goId := Split(geneCountLines[k + 1], Tab)[0];
                   r.value[k] == (goId, MapIds(Lookup(go2entrez, goId), entToEns))
  {
    var mapped := MapEntrezToEnsembl(biomartLines);
    if mapped.Err? {
      return Err(mapped.error);
    }
    var entToEns := mapped.value;
    var topGoIds: seq<(string, seq<string>)> := [];
    var atLine := 0;
    var skipLines := 1;
    var n := 0;
    while n < |geneCountLines|
      invariant 0 <= n <= |geneCountLines|
      invariant atLine == n
      invariant n <= 1 || n - 1 <= top
      invariant |topGoIds| == if n == 0 then 0 else n - 1
      invariant forall k :: 0 <= k < |topGoIds| ==>
                  var goId := Split(geneCountLines[k + 1], Tab)[0];
                  topGoIds[k] == (goId, MapIds(Lookup(go2entrez, goId), entToEns))
    {
      var line := geneCountLines[n];
      if atLine < skipLines {
        atLine := atLine + 1;
        n := n + 1;
        continue;
      } else if atLine > top {
        break;
      }
      atLine := atLine + 1;
      var goId := Split(line, Tab)[0];
      var entrezIds := Lookup(go2entrez, goId);
      var ensemblIds := EnsemblIds(entrezIds, entToEns);
      topGoIds := topGoIds + [(goId, ensemblIds)];
      n := n + 1;
    }
    return Ok(topGoIds);
  }

  // ---------------------------------------------------------------------------------
  // get_ensembl_ids

  /** `get_ensembl_ids`: the Ensembl ids of the Entrez ids annotated to one GO id. */
  method GetEnsemblIds(goProcessId: string, biomartLines: seq<string>, go2entrez: map<string, seq<nat>>)
    returns (r: Result<seq<string>>)
    ensures EntrezToEnsembl(biomartLines).Err? ==> r == Err(EntrezToEnsembl(biomartLines).error)
    ensures EntrezToEnsembl(biomartLines).Ok? ==>
              r == Ok(MapIds(Lookup(go2entrez, goProcessId), EntrezToEnsembl(biomartLines).value))
  {
    var mapped := MapEntrezToEnsembl(biomartLines);
    if mapped.Err? {
      return Err(mapped.error);
    }
    var entrezIds := Lookup(go2entrez, goProcessId);
    var ensemblIds := EnsemblIds(entrezIds, mapped.value);
    return Ok(ensemblIds);
  }
}
