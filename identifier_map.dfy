/** Entrez-to-Ensembl identifier mapping (GO_prediction/GO_utils.py): the dictionary
    built from the biomart table, and the lookup loop that turns a GO term's Entrez ids
    into Ensembl gene ids. */
module IdentifierMap {
  import opened Outcome
  import opened Text
  import opened Decimal

  /** A biomart line has the three fields the mapping reads. */
  predicate HasIdFields(line: string) { |Split(line, Tab)| >= 3 }

  /** Field 2 of a biomart line: the Entrez id, verbatim (no stripping). */
  function EntrezField(line: string): string
    requires HasIdFields(line)
  {
    Split(line, Tab)[2]
  }

  /** Field 0 of a biomart line: the Ensembl gene id. */
  function EnsemblField(line: string): string
  {
    Split(line, Tab)[0]
  }

  /** The dictionary `map_entrez_to_ensembl` holds after reading `lines` in order:
      Entrez id to Ensembl id, a later line overwriting an earlier one with the same key.
      A line with fewer than three fields stops the reading (IndexError). */
  function EntrezToEnsembl(lines: seq<string>): (r: Result<map<string, string>>)
    ensures r.Ok? ==> |r.value| <= |lines|
    ensures r.Err? ==> r.error.MalformedLine? && r.error.line < |lines| && !HasIdFields(lines[r.error.line])
  {
    if lines == [] then Ok(map[])
    else
      match EntrezToEnsembl(lines[..|lines| - 1])
      case Err(e) => Err(e)
      case Ok(m) =>
        var last := lines[|lines| - 1];
        if !HasIdFields(last) then Err(MalformedLine(|lines| - 1))
        else Ok(m[EntrezField(last) := EnsemblField(last)])
  }

  /** Once a prefix fails, the whole table fails the same way. */
  lemma {:induction false} EntrezToEnsemblErrSticks(lines: seq<string>, n: nat)
    requires n <= |lines|
    requires EntrezToEnsembl(lines[..n]).Err?
    ensures EntrezToEnsembl(lines) == EntrezToEnsembl(lines[..n])
    decreases |lines| - n
  {
    if n < |lines| {
      assert lines[..n + 1][..n] == lines[..n];
      EntrezToEnsemblErrSticks(lines, n + 1);
    } else {
      assert lines[..n] == lines;
    }
  }

  /** `map_entrez_to_ensembl`, reading the lines one at a time into a dictionary. */
  method MapEntrezToEnsembl(lines: seq<string>) returns (r: Result<map<string, string>>)
    ensures r == EntrezToEnsembl(lines)
  {
    var entToEns: map<string, string> := map[];
    var n := 0;
    while n < |lines|
      invariant 0 <= n <= |lines|
      invariant EntrezToEnsembl(lines[..n]) == Ok(entToEns)
    {
      var vals := Split(lines[n], Tab);
      assert lines[..n + 1][..n] == lines[..n];
      if |vals| < 3 {
        EntrezToEnsemblErrSticks(lines, n + 1);
        return Err(MalformedLine(n));
      }
      var ensGeneId := vals[0];
      var entrezId := vals[2];
      entToEns := entToEns[entrezId := ensGeneId];
      n := n + 1;
    }
    assert lines[..n] == lines;
    return Ok(entToEns);
  }

  /** The mapping fails exactly when some line lacks a field, and then at the first one. */
  lemma {:induction false} EntrezToEnsemblFails(lines: seq<string>)
    ensures EntrezToEnsembl(lines).Ok? <==> forall i :: 0 <= i < |lines| ==> HasIdFields(lines[i])
    ensures EntrezToEnsembl(lines).Err? ==>
              exists i :: 0 <= i < |lines| && EntrezToEnsembl(lines).error == MalformedLine(i)
                          && !HasIdFields(lines[i]) && forall j :: 0 <= j < i ==> HasIdFields(lines[j])
  {
    if lines != [] {
      var pre := lines[..|lines| - 1];
      EntrezToEnsemblFails(pre);
      assert forall i :: 0 <= i < |pre| ==> pre[i] == lines[i];
      if EntrezToEnsembl(pre).Err? {
        var i :| 0 <= i < |pre| && EntrezToEnsembl(pre).error == MalformedLine(i) && !HasIdFields(pre[i])
                 && forall j :: 0 <= j < i ==> HasIdFields(pre[j]);
        assert !HasIdFields(lines[i]);
      }
    }
  }

  /** The Entrez ids of all lines, in a set. */
  function EntrezKeys(lines: seq<string>): set<string>
    requires forall i :: 0 <= i < |lines| ==> HasIdFields(lines[i])
  {
    set i | 0 <= i < |lines| :: EntrezField(lines[i])
  }

  lemma EntrezKeysSnoc(lines: seq<string>)
    requires |lines| > 0 && forall i :: 0 <= i < |lines| ==> HasIdFields(lines[i])
    ensures var pre := lines[..|lines| - 1];
            EntrezKeys(lines) == EntrezKeys(pre) + {EntrezField(lines[|lines| - 1])}
  {
    var pre := lines[..|lines| - 1];
    forall k | k in EntrezKeys(lines) ensures k in EntrezKeys(pre) + {EntrezField(lines[|lines| - 1])} {
      var i :| 0 <= i < |lines| && EntrezField(lines[i]) == k;
      if i < |pre| { assert pre[i] == lines[i]; }
    }
    forall k | k in EntrezKeys(pre) ensures k in EntrezKeys(lines) {
      var i :| 0 <= i < |pre| && EntrezField(pre[i]) == k;
      assert pre[i] == lines[i];
    }
    assert EntrezField(lines[|lines| - 1]) in EntrezKeys(lines);
  }

  /** Every line contributes its Entrez id as a key, and there is at most one key per line. */
  lemma {:induction false} EntrezToEnsemblKeys(lines: seq<string>)
    requires EntrezToEnsembl(lines).Ok?
    ensures forall i :: 0 <= i < |lines| ==> HasIdFields(lines[i])
    ensures EntrezToEnsembl(lines).value.Keys == EntrezKeys(lines)
    ensures |EntrezToEnsembl(lines).value| <= |lines|
  {
    EntrezToEnsemblFails(lines);
    if lines != [] {
      var pre := lines[..|lines| - 1];
      var last := lines[|lines| - 1];
      EntrezToEnsemblKeys(pre);
      var m := EntrezToEnsembl(pre).value;
      var m' := m[EntrezField(last) := EnsemblField(last)];
      assert EntrezToEnsembl(lines) == Ok(m');
      EntrezKeysSnoc(lines);
      assert |m'| <= |m| + 1;
    }
  }

  /** Line `i` is the last line of the table that carries its Entrez id. */
  predicate LastWithKey(lines: seq<string>, i: nat)
    requires i < |lines| && forall j :: 0 <= j < |lines| ==> HasIdFields(lines[j])
  {
    forall j :: i < j < |lines| ==> EntrezField(lines[j]) != EntrezField(lines[i])
  }

  /** Last occurrence wins: each Entrez id maps to the Ensembl id of the last line with it. */
  lemma {:induction false} EntrezToEnsemblLastWins(lines: seq<string>)
    requires EntrezToEnsembl(lines).Ok?
    ensures forall i :: 0 <= i < |lines| ==> HasIdFields(lines[i])
    ensures forall i :: 0 <= i < |lines| && LastWithKey(lines, i) ==>
              EntrezField(lines[i]) in EntrezToEnsembl(lines).value &&
              EntrezToEnsembl(lines).value[EntrezField(lines[i])] == EnsemblField(lines[i])
  {
    EntrezToEnsemblFails(lines);
    if lines != [] {
      var pre := lines[..|lines| - 1];
      var last := lines[|lines| - 1];
      EntrezToEnsemblLastWins(pre);
      var m := EntrezToEnsembl(pre).value;
      var m' := m[EntrezField(last) := EnsemblField(last)];
      assert EntrezToEnsembl(lines) == Ok(m');
      forall i | 0 <= i < |lines| && LastWithKey(lines, i)
        ensures EntrezField(lines[i]) in m' && m'[EntrezField(lines[i])] == EnsemblField(lines[i])
      {
        if i < |pre| {
          assert pre[i] == lines[i];
          assert EntrezField(lines[i]) != EntrezField(last);
          forall j | i < j < |pre| ensures EntrezField(pre[j]) != EntrezField(pre[i]) {
            assert pre[j] == lines[j];
          }
          assert LastWithKey(pre, i);
        }
      }
    }
  }

  /** The Ensembl ids of `entrezIds`, in order, each Entrez id printed in decimal and looked
      up; ids the mapping does not know are skipped, duplicates are kept. */
  function MapIds(entrezIds: seq<nat>, entToEns: map<string, string>): (r: seq<string>)
    ensures |r| <= |entrezIds|
    ensures forall k :: 0 <= k < |r| ==> r[k] in entToEns.Values
  {
    if entrezIds == [] then []
    else
      var key := NatToDecimal(entrezIds[|entrezIds| - 1]);
      MapIds(entrezIds[..|entrezIds| - 1], entToEns) + (if key in entToEns then [entToEns[key]] else [])
  }

  /** The lookup loop of `get_go_terms` (and `get_ensembl_ids`). */
  method EnsemblIds(entrezIds: seq<nat>, entToEns: map<string, string>) returns (ensemblIds: seq<string>)
    ensures ensemblIds == MapIds(entrezIds, entToEns)
  {
    ensemblIds := [];
    var j := 0;
    while j < |entrezIds|
      invariant 0 <= j <= |entrezIds|
      invariant ensemblIds == MapIds(entrezIds[..j], entToEns)
    {
      assert entrezIds[..j + 1][..j] == entrezIds[..j];
      var key := NatToDecimal(entrezIds[j]);
      if key in entToEns {
        ensemblIds := ensemblIds + [entToEns[key]];
      }
      j := j + 1;
    }
    assert entrezIds[..j] == entrezIds;
  }

  /** A gene is in the list exactly when some listed Entrez id maps to it. */
  lemma {:induction false} MapIdsMembers(entrezIds: seq<nat>, entToEns: map<string, string>, g: string)
    ensures g in MapIds(entrezIds, entToEns) <==>
            exists e :: e in entrezIds && NatToDecimal(e) in entToEns && entToEns[NatToDecimal(e)] == g
  {
    if entrezIds != [] {
      var pre := entrezIds[..|entrezIds| - 1];
      var e := entrezIds[|entrezIds| - 1];
      MapIdsMembers(pre, entToEns, g);
      assert entrezIds == pre + [e];
      if exists e' :: e' in entrezIds && NatToDecimal(e') in entToEns && entToEns[NatToDecimal(e')] == g {
        var e' :| e' in entrezIds && NatToDecimal(e') in entToEns && entToEns[NatToDecimal(e')] == g;
        if e' != e { assert e' in pre; }
      }
    }
  }

  /** The lookup keeps order: mapping a concatenation concatenates the mapped parts. */
  lemma {:induction false} MapIdsConcat(a: seq<nat>, b: seq<nat>, entToEns: map<string, string>)
    ensures MapIds(a + b, entToEns) == MapIds(a, entToEns) + MapIds(b, entToEns)
    decreases |b|
  {
    if b == [] {
      assert a + b == a;
    } else {
      var b' := b[..|b| - 1];
      assert (a + b)[..|a + b| - 1] == a + b';
      assert (a + b)[|a + b| - 1] == b[|b| - 1];
      MapIdsConcat(a, b', entToEns);
    }
  }

  /** Never longer than its input; when every id is known, position k holds the mapping of
      the k-th Entrez id. */
  lemma {:induction false} MapIdsLength(entrezIds: seq<nat>, entToEns: map<string, string>)
    ensures |MapIds(entrezIds, entToEns)| <= |entrezIds|
    ensures (forall k :: 0 <= k < |entrezIds| ==> NatToDecimal(entrezIds[k]) in entToEns) ==>
              |MapIds(entrezIds, entToEns)| == |entrezIds| &&
              forall k :: 0 <= k < |entrezIds| ==>
                MapIds(entrezIds, entToEns)[k] == entToEns[NatToDecimal(entrezIds[k])]
  {
    if entrezIds != [] {
      var pre := entrezIds[..|entrezIds| - 1];
      MapIdsLength(pre, entToEns);
    }
  }
}
