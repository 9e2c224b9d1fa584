/**
 * The registry's queries as functions of its state: the loaded modality
 * tables, the per-sample clinical table and the activated modality list.
 * The class in module Registry runs these step by step and is proved to
 * compute exactly these functions.
 */
module Query {
  import opened Results
  import opened Tables
  import opened Modalities

  /** The exceptions the registry's operations can raise. */
  datatype Error =
    | NoModalitiesSpecified                    // the explicit "Need to specify which multi-omics" exception
    | EmptyModalityList                        // IndexError from `modalities[0]` on an empty list
    | ModalityNotLoaded(modality: Modality)    // KeyError from `self.data[modality]`
    | MissingAttribute(modality: Modality)     // AttributeError from `self.GE` etc. when never assigned
    | MissingColumn(field: Field)              // KeyError from selecting a column the table lacks
    | SamplesNotInModality(modality: Modality) // KeyError from `.loc` with labels absent from the index

  /** The `modalities` argument of `load_data`: the string 'all', `None`, or a list of tags. */
  datatype Selection = AllModalities | Unspecified | Listed(modalities: seq<Modality>)

  /** The arguments of `load_data`; an empty filter list means "no restriction". */
  datatype Request = Request(
    selection: Selection,
    target: seq<Field>,
    pathologicStages: seq<Value>,
    histologicalSubtypes: seq<Value>,
    predictedSubtypes: seq<Value>,
    tumorNormal: seq<Value>,
    samplesBarcode: Option<seq<Barcode>>)

  const StageField: Field := "pathologic_stage"
  const HistologicField: Field := "histologic_subtype"
  const PredictedField: Field := "predicted_subtype"
  const TumorNormalField: Field := "tumor_normal"
  const PatientBarcodeField: Field := "bcr_patient_barcode"

  /** What `load_data` has settled before it slices the modalities. */
  datatype Prepared = Prepared(modalities: seq<Modality>, samples: seq<Barcode>, target: Table)

  /** The result of `load_data`: one table per requested modality, and the target table. */
  datatype Dataset = Dataset(omics: map<Modality, Table>, target: Table)

  // ---------------------------------------------------------------- selection

  function Resolve(sel: Selection, registered: seq<Modality>): (r: Result<seq<Modality>, Error>)
    ensures r.Err? <==> sel == Listed([])
    ensures r.Err? ==> r.error == NoModalitiesSpecified
    ensures r.Ok? && sel.Listed? ==> r.value == sel.modalities
    ensures r.Ok? && !sel.Listed? ==> r.value == registered
  {
    match sel
    case AllModalities => Ok(registered)
    case Unspecified => Ok(registered)
    case Listed(ms) => if ms != [] then Ok(ms) else Err(NoModalitiesSpecified)
  }

  // ---------------------------------------------------------------- matching

  /** `Index.join(other, how="inner")`: the barcodes of `matched` that `t` also indexes, in `matched`'s order. */
  function Join(matched: seq<Barcode>, t: Table): seq<Barcode> {
    SelectIds(matched, t.rows, [])
  }

  lemma JoinFacts(matched: seq<Barcode>, t: Table)
    ensures forall id :: id in Join(matched, t) <==> id in matched && id in t.rows
    ensures IsSubsequence(Join(matched, t), matched)
    ensures Distinct(matched) ==> Distinct(Join(matched, t))
  {
    SelectIdsMembers(matched, t.rows, []);
    SelectIdsSubsequence(matched, t.rows, []);
    SelectIdsDistinct(matched, t.rows, []);
  }

  /** The join loop of `match_samples`, from the running intersection `matched` over the modalities still to visit. */
  function MatchFrom(matched: seq<Barcode>, mods: seq<Modality>, omics: map<Modality, Table>): Result<seq<Barcode>, Error>
    decreases |mods|
  {
    if mods == [] then Ok(matched)
    else if mods[0] !in omics then Err(ModalityNotLoaded(mods[0]))
    else MatchFrom(Join(matched, omics[mods[0]]), mods[1..], omics)
  }

  lemma {:induction false} MatchFromFacts(matched: seq<Barcode>, mods: seq<Modality>, omics: map<Modality, Table>)
    ensures MatchFrom(matched, mods, omics).Ok? <==> forall m :: m in mods ==> m in omics
    ensures var r := MatchFrom(matched, mods, omics);
      r.Err? ==> r.error.ModalityNotLoaded? && r.error.modality in mods && r.error.modality !in omics
    ensures var r := MatchFrom(matched, mods, omics);
      r.Ok? ==> forall id :: id in r.value <==> id in matched && forall m :: m in mods ==> id in omics[m].rows
    ensures var r := MatchFrom(matched, mods, omics);
      r.Ok? ==> IsSubsequence(r.value, matched) && (Distinct(matched) ==> Distinct(r.value))
    decreases |mods|
  {
    if mods == [] {
      SubsequenceReflexive(matched);
    } else if mods[0] in omics {
      var next := Join(matched, omics[mods[0]]);
      JoinFacts(matched, omics[mods[0]]);
      MatchFromFacts(next, mods[1..], omics);
      assert forall m :: m in mods <==> m == mods[0] || m in mods[1..] by {
        assert mods == [mods[0]] + mods[1..];
      }
      var r := MatchFrom(matched, mods, omics);
      if r.Ok? {
        SubsequenceTransitive(r.value, next, matched);
      }
    }
  }

  /**
   * `match_samples`: the barcodes of the first requested modality's index
   * that every requested modality indexes, in the first index's order.
   */
  function Match(mods: seq<Modality>, omics: map<Modality, Table>): (r: Result<seq<Barcode>, Error>)
    ensures r.Ok? <==> mods != [] && forall m :: m in mods ==> m in omics
    ensures mods == [] ==> r == Err(EmptyModalityList)
    ensures mods != [] && r.Err? ==> r.error.ModalityNotLoaded? && r.error.modality in mods && r.error.modality !in omics
    ensures r.Ok? ==> forall id :: id in r.value <==> id in omics[mods[0]].index && forall m :: m in mods ==> id in omics[m].rows
    ensures r.Ok? ==> IsSubsequence(r.value, omics[mods[0]].index)
    ensures r.Ok? && Distinct(omics[mods[0]].index) ==> Distinct(r.value)
  {
    if mods == [] then Err(EmptyModalityList)
    else if mods[0] !in omics then Err(ModalityNotLoaded(mods[0]))
    else
      MatchFromFacts(omics[mods[0]].index, mods, omics);
      MatchFrom(omics[mods[0]].index, mods, omics)
  }

  /** A single modality is joined with itself, which filters nothing out. */
  lemma MatchSingle(m: Modality, omics: map<Modality, Table>)
    requires m in omics && WellFormed(omics[m])
    ensures Match([m], omics) == Ok(omics[m].index)
  {
    var t := omics[m];
    SelectIdsAll(t.index, t.rows, []);
    assert Join(t.index, t) == t.index;
    assert [m][1..] == [];
    assert MatchFrom(t.index, [m], omics) == MatchFrom(t.index, [], omics);
  }

  /** The intersection over several modalities lies within the match of each one alone. */
  lemma MatchWithinEachModality(mods: seq<Modality>, omics: map<Modality, Table>, m: Modality)
    requires forall k :: k in omics ==> WellFormed(omics[k])
    requires m in mods && Match(mods, omics).Ok?
    ensures Match([m], omics).Ok?
    ensures forall id :: id in Match(mods, omics).value ==> id in Match([m], omics).value
  {
    // A corollary of the contracts of Match and MatchSingle.
  }

  /** The example of two modalities with overlapping samples. */
  lemma MatchTwoModalities(omics: map<Modality, Table>)
    requires GE in omics && omics[GE].index == ["A", "B", "C"] && WellFormed(omics[GE])
    requires SNP in omics && omics[SNP].index == ["B", "C", "D"] && WellFormed(omics[SNP])
    ensures Match([GE, SNP], omics) == Ok(["B", "C"])
  {
    var ge, snp := omics[GE], omics[SNP];
    var abc: seq<Barcode> := ["A", "B", "C"];
    var bc: seq<Barcode> := ["B", "C"];
    var c: seq<Barcode> := ["C"];
    assert "A" !in snp.rows by {
      assert "A" !in snp.index;
    }
    assert "B" in snp.rows && "C" in snp.rows by {
      assert snp.index[0] == "B" && snp.index[1] == "C";
    }
    assert Join(abc, ge) == abc by {
      SelectIdsAll(ge.index, ge.rows, []);
    }
    assert Join(abc, snp) == bc by {
      assert abc[1..] == bc && bc[1..] == c && c[1..] == [];
      assert SelectIds(c, snp.rows, []) == c;
      assert SelectIds(bc, snp.rows, []) == bc;
    }
    assert MatchFrom(abc, [GE, SNP], omics) == MatchFrom(abc, [SNP], omics) by {
      assert [GE, SNP][1..] == [SNP];
    }
    assert MatchFrom(abc, [SNP], omics) == MatchFrom(bc, [], omics) by {
      assert [SNP][1..] == [];
    }
  }

  // ---------------------------------------------------------------- filtering

  /** The selection one categorical filter stands for: none at all when its list is empty. */
  function Criteria(field: Field, allowed: seq<Value>): seq<Criterion> {
    if allowed == [] then [] else [MemberOf(field, allowed)]
  }

  /** The four categorical filters of `load_data`, in the order they are applied. */
  function ActiveCriteria(req: Request): seq<Criterion> {
    Criteria(StageField, req.pathologicStages)
    + Criteria(HistologicField, req.histologicalSubtypes)
    + Criteria(PredictedField, req.predictedSubtypes)
    + Criteria(TumorNormalField, req.tumorNormal)
  }

  /** Every non-empty filter names a column the clinical table has. */
  predicate FilterColumnsPresent(cols: set<Field>, req: Request) {
    && (req.pathologicStages != [] ==> StageField in cols)
    && (req.histologicalSubtypes != [] ==> HistologicField in cols)
    && (req.predictedSubtypes != [] ==> PredictedField in cols)
    && (req.tumorNormal != [] ==> TumorNormalField in cols)
  }

  /** One guarded `y = y[y[field].isin(allowed)]`. */
  function FilterIn(t: Table, field: Field, allowed: seq<Value>): (r: Result<Table, Error>)
    ensures r.Err? <==> allowed != [] && field !in t.columns
    ensures r.Err? ==> r.error == MissingColumn(field)
    ensures allowed == [] ==> r == Ok(t)
    ensures r.Ok? ==> r.value.columns == t.columns && IsSubsequence(r.value.index, t.index)
    ensures r.Ok? && allowed != [] ==> forall id :: id in r.value.index <==>
      id in t.index && id in t.rows && field in t.rows[id] && t.rows[id][field].Some? && t.rows[id][field].value in allowed
  {
    if allowed == [] then
      SubsequenceReflexive(t.index);
      Ok(t)
    else if field !in t.columns then Err(MissingColumn(field))
    else
      SatisfiesAllSingle(MemberOf(field, allowed));
      Ok(Where(t, [MemberOf(field, allowed)]))
  }

  /** A non-empty filter keeps every copy of a matching barcode the index lists, and no copy of any other. */
  lemma FilterInCount(t: Table, field: Field, allowed: seq<Value>)
    requires FilterIn(t, field, allowed).Ok? && allowed != []
    ensures forall id :: multiset(FilterIn(t, field, allowed).value.index)[id] ==
                         (if id in t.rows && field in t.rows[id] && t.rows[id][field].Some? && t.rows[id][field].value in allowed
                          then multiset(t.index)[id] else 0)
  {
    WhereCount(t, [MemberOf(field, allowed)]);
    SatisfiesAllSingle(MemberOf(field, allowed));
  }

  lemma FilterInIsWhere(t: Table, field: Field, allowed: seq<Value>)
    requires WellFormed(t) && FilterIn(t, field, allowed).Ok?
    ensures FilterIn(t, field, allowed).value == Where(t, Criteria(field, allowed))
  {
    if allowed == [] {
      WhereNothing(t);
    }
  }

  /** The four filters of `load_data`, each rebinding the table. */
  function ApplyFilters(t: Table, req: Request): Result<Table, Error> {
    var t1 :- FilterIn(t, StageField, req.pathologicStages);
    var t2 :- FilterIn(t1, HistologicField, req.histologicalSubtypes);
    var t3 :- FilterIn(t2, PredictedField, req.predictedSubtypes);
    FilterIn(t3, TumorNormalField, req.tumorNormal)
  }

  /**
   * The filters apply conjunctively: together they keep exactly the rows
   * passing every non-empty filter, in order, and fail only on a column the
   * table lacks.
   */
  lemma FiltersConjunctive(t: Table, req: Request)
    requires WellFormed(t)
    ensures ApplyFilters(t, req).Ok? <==> FilterColumnsPresent(t.columns, req)
    ensures ApplyFilters(t, req).Ok? ==> ApplyFilters(t, req) == Ok(Where(t, ActiveCriteria(req)))
  {
    var c1 := Criteria(StageField, req.pathologicStages);
    var c2 := Criteria(HistologicField, req.histologicalSubtypes);
    var c3 := Criteria(PredictedField, req.predictedSubtypes);
    var c4 := Criteria(TumorNormalField, req.tumorNormal);
    var f1 := FilterIn(t, StageField, req.pathologicStages);
    if f1.Ok? {
      FilterInIsWhere(t, StageField, req.pathologicStages);
      var t1 := f1.value;
      var f2 := FilterIn(t1, HistologicField, req.histologicalSubtypes);
      if f2.Ok? {
        FilterInIsWhere(t1, HistologicField, req.histologicalSubtypes);
        WhereTwice(t, c1, c2);
        var t2 := f2.value;
        var f3 := FilterIn(t2, PredictedField, req.predictedSubtypes);
        if f3.Ok? {
          FilterInIsWhere(t2, PredictedField, req.predictedSubtypes);
          WhereTwice(t, c1 + c2, c3);
          var t3 := f3.value;
          var f4 := FilterIn(t3, TumorNormalField, req.tumorNormal);
          if f4.Ok? {
            FilterInIsWhere(t3, TumorNormalField, req.tumorNormal);
            WhereTwice(t, c1 + c2 + c3, c4);
          }
        }
      }
    }
  }

  /** Filters left at their empty default restrict nothing. */
  lemma EmptyFiltersAreNoOps(t: Table, req: Request)
    requires req.pathologicStages == [] && req.histologicalSubtypes == []
    requires req.predictedSubtypes == [] && req.tumorNormal == []
    ensures ActiveCriteria(req) == []
    ensures ApplyFilters(t, req) == Ok(t)
  {
  }

  // ---------------------------------------------------------------- the target table

  /** The sample's clinical row as reindexing yields it: all-missing for an unknown barcode. */
  function ClinicalRow(samples: Table, id: Barcode): Record {
    if id in samples.rows then samples.rows[id] else AllMissing(samples.columns)
  }

  /** The requested target columns the clinical table has (`filter` skips the others). */
  function TargetColumns(samples: Table, req: Request): set<Field> {
    ProjectedColumns(samples.columns, req.target)
  }

  /** `load_data` lines 198-214 for a given candidate list: reindex, filter, project, drop incomplete rows. */
  function TargetFor(samples: Table, ids: seq<Barcode>, req: Request): Result<Table, Error> {
    var y :- ApplyFilters(Reindex(samples, ids), req);
    Ok(DropMissing(Project(y, req.target)))
  }

  /** Selecting, projecting and dropping incomplete rows is one selection over the original rows. */
  lemma SelectProjectDrop(t: Table, a: seq<Criterion>, fields: seq<Field>)
    requires WellFormed(t)
    ensures var fin := DropMissing(Project(Where(t, a), fields));
      && fin.columns == ProjectedColumns(t.columns, fields)
      && fin.index == SelectIds(t.index, t.rows, a + [NoMissing(ProjectedColumns(t.columns, fields))])
  {
    var y := Where(t, a);
    var n := [NoMissing(ProjectedColumns(t.columns, fields))];
    ProjectKeepsCompleteRows(y, fields);
    assert forall id :: id in y.index ==> id in y.rows && y.rows[id] == t.rows[id];
    SelectIdsCongruent(y.index, y.rows, n, t.rows, n);
    SelectIdsTwice(t.index, t.rows, a, n);
  }

  /** The target table after filtering, as one selection over the candidates. */
  lemma TargetForIndex(samples: Table, ids: seq<Barcode>, req: Request)
    requires WellFormed(samples)
    ensures TargetFor(samples, ids, req).Ok? <==> FilterColumnsPresent(samples.columns, req)
    ensures TargetFor(samples, ids, req).Err? ==> TargetFor(samples, ids, req).error.MissingColumn?
    ensures var r := TargetFor(samples, ids, req);
      r.Ok? ==>
        && r.value.columns == TargetColumns(samples, req)
        && r.value.index == SelectIds(ids, Reindex(samples, ids).rows, ActiveCriteria(req) + [NoMissing(TargetColumns(samples, req))])
        && WellFormed(r.value)
  {
    var y0 := Reindex(samples, ids);
    FiltersConjunctive(y0, req);
    if TargetFor(samples, ids, req).Ok? {
      SelectProjectDrop(y0, ActiveCriteria(req), req.target);
    }
  }

  /**
   * The target table holds only requested target columns with no missing
   * value, and its rows are exactly the candidate samples whose clinical row
   * passes every non-empty filter and is complete in those columns, in the
   * candidates' order. It fails only on a filter column the clinical table lacks.
   */
  lemma TargetForFacts(samples: Table, ids: seq<Barcode>, req: Request)
    requires WellFormed(samples)
    ensures TargetFor(samples, ids, req).Ok? <==> FilterColumnsPresent(samples.columns, req)
    ensures var r := TargetFor(samples, ids, req);
      r.Ok? ==>
        && r.value.columns == TargetColumns(samples, req)
        && IsSubsequence(r.value.index, ids)
        && (forall id :: id in r.value.index <==>
              id in ids && SatisfiesAll(ClinicalRow(samples, id), ActiveCriteria(req) + [NoMissing(TargetColumns(samples, req))]))
        && (forall id, f :: id in r.value.rows && f in r.value.columns ==>
              f in r.value.rows[id] && r.value.rows[id][f].Some? && r.value.rows[id][f] == ClinicalRow(samples, id)[f])
  {
    TargetForIndex(samples, ids, req);
    var r := TargetFor(samples, ids, req);
    if r.Ok? {
      var y0 := Reindex(samples, ids);
      var cs := ActiveCriteria(req) + [NoMissing(TargetColumns(samples, req))];
      SelectIdsMembers(ids, y0.rows, cs);
      SelectIdsSubsequence(ids, y0.rows, cs);
      assert forall id :: id in ids ==> y0.rows[id] == ClinicalRow(samples, id);
      FiltersConjunctive(y0, req);
      var y := Where(y0, ActiveCriteria(req));
      assert r.value == DropMissing(Project(y, req.target));
    }
  }

  /** Adding a pathologic-stage restriction can only remove samples from the target table. */
  lemma StageFilterOnlyNarrows(samples: Table, ids: seq<Barcode>, req: Request)
    requires WellFormed(samples)
    requires TargetFor(samples, ids, req).Ok?
    ensures TargetFor(samples, ids, req.(pathologicStages := [])).Ok?
    ensures forall id :: id in TargetFor(samples, ids, req).value.index ==>
      id in TargetFor(samples, ids, req.(pathologicStages := [])).value.index
  {
    var wide := req.(pathologicStages := []);
    TargetForIndex(samples, ids, req);
    TargetForIndex(samples, ids, wide);
    var n := [NoMissing(TargetColumns(samples, req))];
    assert forall c :: c in ActiveCriteria(wide) + n ==> c in ActiveCriteria(req) + n;
    SelectIdsWeaker(ids, Reindex(samples, ids).rows, ActiveCriteria(req) + n, ActiveCriteria(wide) + n);
  }

  /** `load_data` up to line 216: resolve the modalities, match or take the override, build the target table. */
  function Prepare(registered: seq<Modality>, omics: map<Modality, Table>, samples: Table, req: Request): (r: Result<Prepared, Error>)
    ensures req.selection == Listed([]) ==> r == Err(NoModalitiesSpecified)
    ensures r.Ok? ==> Resolve(req.selection, registered) == Ok(r.value.modalities)
    ensures r.Ok? ==> r.value.modalities != [] && forall m :: m in r.value.modalities ==> m in omics
    ensures r.Ok? && req.samplesBarcode.Some? ==> r.value.samples == req.samplesBarcode.value
    ensures r.Ok? && req.samplesBarcode.None? ==> Match(r.value.modalities, omics) == Ok(r.value.samples)
    ensures r.Ok? ==> TargetFor(samples, r.value.samples, req) == Ok(r.value.target)
  {
    var mods :- Resolve(req.selection, registered);
    var matched :- Match(mods, omics);
    var ids := if req.samplesBarcode.Some? then req.samplesBarcode.value else matched;
    var y :- TargetFor(samples, ids, req);
    Ok(Prepared(mods, ids, y))
  }

  /**
   * When `load_data` fails before slicing: the explicit exception for an
   * empty modality list, the error of `match_samples`, or a filter column
   * the clinical table lacks, in that order.
   */
  lemma PrepareFails(registered: seq<Modality>, omics: map<Modality, Table>, samples: Table, req: Request)
    requires WellFormed(samples)
    ensures var mods := Resolve(req.selection, registered);
      Prepare(registered, omics, samples, req).Ok? <==>
        mods.Ok? && Match(mods.value, omics).Ok? && FilterColumnsPresent(samples.columns, req)
    ensures Resolve(req.selection, registered).Err? ==> Prepare(registered, omics, samples, req) == Err(NoModalitiesSpecified)
    ensures var mods := Resolve(req.selection, registered);
      mods.Ok? && Match(mods.value, omics).Err? ==> Prepare(registered, omics, samples, req) == Err(Match(mods.value, omics).error)
    ensures var mods := Resolve(req.selection, registered);
      mods.Ok? && Match(mods.value, omics).Ok? && !FilterColumnsPresent(samples.columns, req) ==>
        Prepare(registered, omics, samples, req).Err? && Prepare(registered, omics, samples, req).error.MissingColumn?
  {
    // A corollary of the contracts of Resolve, Match, Prepare and FilterIn.
  }

  /** An explicit barcode list replaces the intersection entirely: which samples the modalities share no longer matters. */
  lemma OverrideReplacesMatch(registered: seq<Modality>, omics1: map<Modality, Table>, omics2: map<Modality, Table>,
                              samples: Table, req: Request)
    requires req.samplesBarcode.Some?
    requires Resolve(req.selection, registered).Ok?
    requires Match(Resolve(req.selection, registered).value, omics1).Ok?
    requires Match(Resolve(req.selection, registered).value, omics2).Ok?
    ensures Prepare(registered, omics1, samples, req) == Prepare(registered, omics2, samples, req)
  {
  }

  // ---------------------------------------------------------------- slicing the modalities

  /** The loop filling `X_multiomics`: `self.data[m].loc[ids, :]` for each requested modality in turn. */
  function SliceFrom(acc: map<Modality, Table>, mods: seq<Modality>, omics: map<Modality, Table>, ids: seq<Barcode>)
    : Result<map<Modality, Table>, Error>
    decreases |mods|
  {
    if mods == [] then Ok(acc)
    else if mods[0] !in omics then Err(ModalityNotLoaded(mods[0]))
    else if !Covers(omics[mods[0]], ids) then Err(SamplesNotInModality(mods[0]))
    else SliceFrom(acc[mods[0] := Slice(omics[mods[0]], ids)], mods[1..], omics, ids)
  }

  lemma {:induction false} SliceFromFacts(acc: map<Modality, Table>, mods: seq<Modality>, omics: map<Modality, Table>, ids: seq<Barcode>)
    ensures SliceFrom(acc, mods, omics, ids).Ok? <==> forall m :: m in mods ==> m in omics && Covers(omics[m], ids)
    ensures var r := SliceFrom(acc, mods, omics, ids);
      r.Ok? ==>
        && (forall m :: m in r.value <==> m in acc || m in mods)
        && (forall m :: m in mods ==> m in omics && Covers(omics[m], ids) && r.value[m] == Slice(omics[m], ids))
        && (forall m :: m in acc && m !in mods ==> r.value[m] == acc[m])
    decreases |mods|
  {
    if mods != [] && mods[0] in omics && Covers(omics[mods[0]], ids) {
      SliceFromFacts(acc[mods[0] := Slice(omics[mods[0]], ids)], mods[1..], omics, ids);
      assert forall m :: m in mods <==> m == mods[0] || m in mods[1..] by {
        assert mods == [mods[0]] + mods[1..];
      }
    }
  }

  /** `load_data` lines 216-223: slice every requested modality to the target table's index. */
  function Assemble(p: Prepared, omics: map<Modality, Table>): Result<Dataset, Error> {
    var x :- SliceFrom(map[], p.modalities, omics, p.target.index);
    Ok(Dataset(x, p.target))
  }

  /** `load_data`. */
  function LoadData(registered: seq<Modality>, omics: map<Modality, Table>, samples: Table, req: Request): Result<Dataset, Error> {
    var p :- Prepare(registered, omics, samples, req);
    Assemble(p, omics)
  }

  lemma AssembleAligned(p: Prepared, omics: map<Modality, Table>)
    ensures Assemble(p, omics).Ok? <==> forall m :: m in p.modalities ==> m in omics && Covers(omics[m], p.target.index)
    ensures var r := Assemble(p, omics);
      r.Ok? ==>
        && r.value.target == p.target
        && (forall m :: m in r.value.omics <==> m in p.modalities)
        && (forall m :: m in r.value.omics ==>
              && m in omics
              && r.value.omics[m].index == r.value.target.index
              && r.value.omics[m].columns == omics[m].columns
              && forall id :: id in r.value.target.index ==> id in omics[m].rows && id in r.value.omics[m].rows && r.value.omics[m].rows[id] == omics[m].rows[id])
  {
    SliceFromFacts(map[], p.modalities, omics, p.target.index);
  }

  /**
   * Alignment: every returned modality table is indexed by exactly the target
   * table's index, in its order, one table per requested modality, each row
   * taken from that modality; slicing fails exactly when a surviving barcode
   * is absent from some requested modality.
   */
  lemma LoadDataAligned(registered: seq<Modality>, omics: map<Modality, Table>, samples: Table, req: Request)
    ensures var p := Prepare(registered, omics, samples, req);
      p.Ok? ==> (LoadData(registered, omics, samples, req).Ok? <==>
                 forall m :: m in p.value.modalities ==> Covers(omics[m], p.value.target.index))
    ensures var r := LoadData(registered, omics, samples, req);
      r.Ok? ==>
        && Prepare(registered, omics, samples, req).Ok?
        && r.value.target == Prepare(registered, omics, samples, req).value.target
        && (forall m :: m in r.value.omics <==> m in Prepare(registered, omics, samples, req).value.modalities)
        && (forall m :: m in r.value.omics <==> m in Resolve(req.selection, registered).value)
        && (forall m :: m in r.value.omics ==>
              && m in omics
              && r.value.omics[m].index == r.value.target.index
              && r.value.omics[m].columns == omics[m].columns
              && forall id :: id in r.value.target.index ==> id in omics[m].rows && id in r.value.omics[m].rows && r.value.omics[m].rows[id] == omics[m].rows[id])
  {
    var p := Prepare(registered, omics, samples, req);
    if p.Ok? {
      assert LoadData(registered, omics, samples, req) == Assemble(p.value, omics);
      AssembleAligned(p.value, omics);
    }
  }

  /** Without an explicit barcode list every surviving sample is in every requested modality, so slicing cannot fail. */
  lemma NoOverrideAlwaysSlices(registered: seq<Modality>, omics: map<Modality, Table>, samples: Table, req: Request)
    requires WellFormed(samples) && req.samplesBarcode.None?
    requires Prepare(registered, omics, samples, req).Ok?
    ensures LoadData(registered, omics, samples, req).Ok?
  {
    var p := Prepare(registered, omics, samples, req).value;
    TargetForFacts(samples, p.samples, req);
    LoadDataAligned(registered, omics, samples, req);
    assert forall id :: id in p.target.index ==> id in p.samples;
  }

  // ---------------------------------------------------------------- patient subtypes

  /** `Series.map(dictionary)` for one patient row: the dictionary's value for its barcode, or missing. */
  function SubtypeOf(row: Record, dictionary: map<Value, Value>): (r: Option<Value>)
    ensures r.Some? <==> PatientBarcodeField in row && row[PatientBarcodeField].Some? && row[PatientBarcodeField].value in dictionary
    ensures r.Some? ==> r.value == dictionary[row[PatientBarcodeField].value]
  {
    if PatientBarcodeField in row && row[PatientBarcodeField].Some? && row[PatientBarcodeField].value in dictionary
    then Some(dictionary[row[PatientBarcodeField].value])
    else None
  }

  /** `patients.assign(predicted_subtype=patients["bcr_patient_barcode"].map(dictionary))`. */
  function AddSubtypes(patients: Table, dictionary: map<Value, Value>): (r: Result<Table, Error>)
    ensures r.Err? <==> PatientBarcodeField !in patients.columns
    ensures r.Err? ==> r.error == MissingColumn(PatientBarcodeField)
    ensures r.Ok? ==> r.value.index == patients.index && r.value.rows.Keys == patients.rows.Keys
    ensures r.Ok? ==> r.value.columns == patients.columns + {PredictedField}
    ensures r.Ok? ==> forall id, f :: id in patients.rows && f in patients.rows[id] && f != PredictedField ==>
      f in r.value.rows[id] && r.value.rows[id][f] == patients.rows[id][f]
    ensures r.Ok? ==> forall id :: id in patients.rows ==>
      PredictedField in r.value.rows[id] && r.value.rows[id][PredictedField] == SubtypeOf(patients.rows[id], dictionary)
    ensures r.Ok? && WellFormed(patients) ==> WellFormed(r.value)
  {
    if PatientBarcodeField !in patients.columns then Err(MissingColumn(PatientBarcodeField))
    else Ok(Table(patients.columns + {PredictedField}, patients.index,
                  map id | id in patients.rows :: patients.rows[id][PredictedField := SubtypeOf(patients.rows[id], dictionary)]))
  }

  /** Assigning the subtype column a second time with the same dictionary changes nothing. */
  lemma AddSubtypesIdempotent(patients: Table, dictionary: map<Value, Value>)
    requires AddSubtypes(patients, dictionary).Ok?
    ensures AddSubtypes(AddSubtypes(patients, dictionary).value, dictionary) == AddSubtypes(patients, dictionary)
  {
    var once := AddSubtypes(patients, dictionary).value;
    forall id | id in once.rows
      ensures once.rows[id][PredictedField := SubtypeOf(once.rows[id], dictionary)] == once.rows[id]
    {
      var row := patients.rows[id];
      assert once.rows[id] == row[PredictedField := SubtypeOf(row, dictionary)];
      assert SubtypeOf(once.rows[id], dictionary) == SubtypeOf(row, dictionary);
    }
    assert AddSubtypes(once, dictionary).value.rows == once.rows;
  }

  // ---------------------------------------------------------------- construction

  /** The modality tables the constructor stores: every activated tag but WSI, whose loader is disabled. */
  function Loaded(modalities: seq<Modality>, load: Modality -> Table): (r: map<Modality, Table>)
    ensures forall m :: m in r <==> m in modalities && m != WSI
    ensures forall m :: m in r ==> r[m] == load(m)
  {
    map m | m in modalities && m != WSI :: load(m)
  }

  function IndexSet(t: Table): set<Barcode> {
    set id | id in t.index
  }

  /**
   * The sample union of the constructor, from the first modality on, as
   * written: it looks every activated tag up among the loaded tables and
   * raises KeyError on one that has none.
   */
  function UnionAsWritten(ms: seq<Modality>, omics: map<Modality, Table>): Result<set<Barcode>, Error>
    decreases |ms|
  {
    if ms == [] then Ok({})
    else
      var prefix :- UnionAsWritten(ms[..|ms| - 1], omics);
      var m := ms[|ms| - 1];
      if m in omics then Ok(prefix + IndexSet(omics[m])) else Err(ModalityNotLoaded(m))
  }

  /** The sample union with activated tags that have no table skipped. */
  function UnionOf(ms: seq<Modality>, omics: map<Modality, Table>): set<Barcode>
    decreases |ms|
  {
    if ms == [] then {}
    else UnionOf(ms[..|ms| - 1], omics) + (if ms[|ms| - 1] in omics then IndexSet(omics[ms[|ms| - 1]]) else {})
  }

  /** The union holds every barcode of every loaded activated modality, and nothing else. */
  lemma {:induction false} UnionOfContainsEveryIndex(ms: seq<Modality>, omics: map<Modality, Table>)
    ensures forall m, id :: m in ms && m in omics && id in omics[m].index ==> id in UnionOf(ms, omics)
    ensures forall id :: id in UnionOf(ms, omics) ==> exists m :: m in ms && m in omics && id in omics[m].index
    decreases |ms|
  {
    if ms != [] {
      var init := ms[..|ms| - 1];
      UnionOfContainsEveryIndex(init, omics);
      assert forall m :: m in ms <==> m in init || m == ms[|ms| - 1] by {
        assert ms == init + [ms[|ms| - 1]];
      }
    }
  }

  /** As written, the union fails exactly when an activated tag has no table, and otherwise agrees with UnionOf. */
  lemma {:induction false} UnionAsWrittenFailsOnUnloaded(ms: seq<Modality>, omics: map<Modality, Table>)
    ensures UnionAsWritten(ms, omics).Err? <==> exists m :: m in ms && m !in omics
    ensures var r := UnionAsWritten(ms, omics);
      r.Err? ==> r.error.ModalityNotLoaded? && r.error.modality in ms && r.error.modality !in omics
    ensures UnionAsWritten(ms, omics).Ok? ==> UnionAsWritten(ms, omics).value == UnionOf(ms, omics)
    decreases |ms|
  {
    if ms != [] {
      var init := ms[..|ms| - 1];
      UnionAsWrittenFailsOnUnloaded(init, omics);
      assert forall m :: m in ms <==> m in init || m == ms[|ms| - 1] by {
        assert ms == init + [ms[|ms| - 1]];
      }
    }
  }

  /** Activating WSI, as the default modality list does, makes the union as written raise KeyError. */
  lemma WsiAbortsUnionAsWritten(ms: seq<Modality>, load: Modality -> Table)
    requires WSI in ms
    ensures UnionAsWritten(ms, Loaded(ms, load)) == Err(ModalityNotLoaded(WSI))
  {
    UnionAsWrittenFailsOnUnloaded(ms, Loaded(ms, load));
  }

  /** So the default construction cannot complete. */
  lemma DefaultModalitiesAbortConstruction(load: Modality -> Table)
    ensures UnionAsWritten(DefaultModalities, Loaded(DefaultModalities, load)).Err?
  {
    WsiAbortsUnionAsWritten(DefaultModalities, load);
  }
}
