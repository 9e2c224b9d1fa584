/**
 * The multi-omics registry of one cancer cohort: the tables it loads at
 * construction, and the operations that align and query them.
 */
module Registry {
  import opened Results
  import opened Tables
  import opened Modalities
  import opened Query

  /** `loaded` holds exactly the tables of the activated modalities among `tags`. */
  ghost predicate LoadedAmong(loaded: map<Modality, Table>, modalities: seq<Modality>, load: Modality -> Table, tags: set<Modality>) {
    forall m :: (m in loaded <==> m in modalities && m in tags) && (m in loaded ==> loaded[m] == load(m))
  }

  /** One branch of the loading chain extends what is loaded by one tag. */
  lemma LoadStep(before: map<Modality, Table>, after: map<Modality, Table>, modalities: seq<Modality>,
                 load: Modality -> Table, tags: set<Modality>, more: set<Modality>, t: Modality)
    requires LoadedAmong(before, modalities, load, tags)
    requires forall m :: m in more <==> m in tags || m == t
    requires after == if t in modalities then before[t := load(t)] else before
    ensures LoadedAmong(after, modalities, load, more)
  {
  }

  lemma LoadedAmongAll(loaded: map<Modality, Table>, modalities: seq<Modality>, load: Modality -> Table)
    requires LoadedAmong(loaded, modalities, load, {GE, SNP, MIR, LNC, DNA, CNV, PRO})
    ensures loaded == Loaded(modalities, load)
  {
    // A corollary of the contracts of LoadedAmong and Loaded.
  }

  /** The constructor's loading step: one table for every activated modality but WSI. */
  method LoadActivated(modalities: seq<Modality>, load: Modality -> Table) returns (loaded: map<Modality, Table>)
    ensures loaded == Loaded(modalities, load)
  {
    loaded := map[];
    // The WSI loader is disabled: nothing is stored for that tag.
    ghost var before := loaded;
    if GE in modalities { loaded := loaded[GE := load(GE)]; }
    LoadStep(before, loaded, modalities, load, {}, {GE}, GE);
    before := loaded;
    if SNP in modalities { loaded := loaded[SNP := load(SNP)]; }
    LoadStep(before, loaded, modalities, load, {GE}, {GE, SNP}, SNP);
    before := loaded;
    if MIR in modalities { loaded := loaded[MIR := load(MIR)]; }
    LoadStep(before, loaded, modalities, load, {GE, SNP}, {GE, SNP, MIR}, MIR);
    before := loaded;
    if LNC in modalities { loaded := loaded[LNC := load(LNC)]; }
    LoadStep(before, loaded, modalities, load, {GE, SNP, MIR}, {GE, SNP, MIR, LNC}, LNC);
    before := loaded;
    if DNA in modalities { loaded := loaded[DNA := load(DNA)]; }
    LoadStep(before, loaded, modalities, load, {GE, SNP, MIR, LNC}, {GE, SNP, MIR, LNC, DNA}, DNA);
    before := loaded;
    if CNV in modalities { loaded := loaded[CNV := load(CNV)]; }
    LoadStep(before, loaded, modalities, load, {GE, SNP, MIR, LNC, DNA}, {GE, SNP, MIR, LNC, DNA, CNV}, CNV);
    before := loaded;
    if PRO in modalities { loaded := loaded[PRO := load(PRO)]; }
    LoadStep(before, loaded, modalities, load, {GE, SNP, MIR, LNC, DNA, CNV}, {GE, SNP, MIR, LNC, DNA, CNV, PRO}, PRO);
    LoadedAmongAll(loaded, modalities, load);
  }

  /**
   * The constructor's sample union: the index of every activated modality
   * that has a table. See UnionAsWritten for the lookup as written.
   */
  method SampleUnion(modalities: seq<Modality>, loaded: map<Modality, Table>) returns (all: set<Barcode>)
    ensures all == UnionOf(modalities, loaded)
    ensures forall id :: id in all <==> exists m :: m in modalities && m in loaded && id in loaded[m].index
  {
    all := {};
    for i := 0 to |modalities|
      invariant all == UnionOf(modalities[..i], loaded)
    {
      var m := modalities[i];
      assert modalities[..i + 1][..i] == modalities[..i] && modalities[..i + 1][i] == m;
      if m in loaded {
        all := all + IndexSet(loaded[m]);
      }
    }
    assert modalities[..|modalities|] == modalities;
    UnionOfContainsEveryIndex(modalities, loaded);
  }

  class MultiOmicsData {
    const cancerType: string
    /** The activated modality tags, as the constructor received them. */
    const modalities: seq<Modality>
    /** The table of every loaded modality, keyed by its tag. */
    const omics: map<Modality, Table>
    /** The patient-level clinical table. */
    var patients: Table
    const drugs: Table
    /** The sample-level clinical table derived from the union of the modalities' samples. */
    const samples: Table

    ghost predicate Valid()
      reads this
    {
      && (forall m :: m in omics ==> m in modalities && m != WSI && Keyed(omics[m]))
      && Keyed(samples)
      && WellFormed(patients)
    }

    /**
     * Store the table of every activated modality but WSI, then derive the
     * per-sample clinical table from the union of their sample barcodes.
     * `load` stands for the modality loaders and `buildSamples` for the
     * clinical store's sample derivation.
     */
    constructor (cancerType: string, modalities: seq<Modality>, patients: Table, drugs: Table,
                 load: Modality -> Table, buildSamples: set<Barcode> -> Table)
      requires forall m :: Keyed(load(m))
      requires forall ids :: Keyed(buildSamples(ids))
      requires WellFormed(patients)
      ensures Valid()
      ensures this.cancerType == cancerType && this.modalities == modalities
      ensures this.patients == patients && this.drugs == drugs
      ensures omics == Loaded(modalities, load)
      ensures samples == buildSamples(UnionOf(modalities, omics))
      ensures forall m, id :: m in omics && id in omics[m].index ==> id in UnionOf(modalities, omics)
    {
      var loaded := LoadActivated(modalities, load);
      var all := SampleUnion(modalities, loaded);
      UnionOfContainsEveryIndex(modalities, loaded);

      this.cancerType := cancerType;
      this.modalities := modalities;
      omics := loaded;
      this.patients := patients;
      this.drugs := drugs;
      samples := buildSamples(all);
    }

    /**
     * `__getitem__`: the table of a loaded modality by its tag. A known tag
     * whose store was never created (always so for WSI) raises
     * AttributeError; any other string gives nothing.
     */
    function GetItem(item: string): (r: Result<Option<Table>, Error>)
      reads this
      ensures r == Ok(None) <==> TagOf(item).None?
      ensures TagOf(item) == Some(WSI) ==> r == Err(MissingAttribute(WSI))
      ensures r.Ok? && r.value.Some? <==> TagOf(item).Some? && TagOf(item).value != WSI && TagOf(item).value in omics
      ensures r.Ok? && r.value.Some? ==> r.value.value == omics[TagOf(item).value]
    {
      match TagOf(item)
      case None => Ok(None)
      case Some(m) => if m != WSI && m in omics then Ok(Some(omics[m])) else Err(MissingAttribute(m))
    }

    /** Looking a modality up by its own tag finds its table exactly when it was loaded. */
    lemma GetItemByTag(m: Modality)
      ensures m in omics && m != WSI ==> GetItem(Name(m)) == Ok(Some(omics[m]))
      ensures m !in omics || m == WSI ==> GetItem(Name(m)) == Err(MissingAttribute(m))
    {
      TagOfName(m);
    }

    /** `match_samples`: start from the first modality's index and inner-join every requested one in turn. */
    method MatchSamples(mods: seq<Modality>) returns (r: Result<seq<Barcode>, Error>)
      requires Valid()
      ensures r == Match(mods, omics)
      ensures r.Ok? ==> forall id :: id in r.value <==> id in omics[mods[0]].index && forall m :: m in mods ==> id in omics[m].rows
      ensures r.Ok? ==> Distinct(r.value)
    {
      if mods == [] {
        return Err(EmptyModalityList);
      }
      if mods[0] !in omics {
        return Err(ModalityNotLoaded(mods[0]));
      }
      var matched := omics[mods[0]].index;
      for i := 0 to |mods|
        invariant MatchFrom(matched, mods[i..], omics) == Match(mods, omics)
      {
        var m := mods[i];
        assert mods[i..][0] == m && mods[i..][1..] == mods[i + 1..];
        if m !in omics {
          return Err(ModalityNotLoaded(m));
        }
        matched := Join(matched, omics[m]);
      }
      assert mods[|mods|..] == [];
      return Ok(matched);
    }

    /** `get_patients_clinical`: the sample clinical table reindexed by the given barcodes. */
    function GetPatientsClinical(ids: seq<Barcode>): (r: Table)
      reads this
      ensures r.index == ids && r.columns == samples.columns
      ensures forall id :: id in ids ==> id in r.rows && r.rows[id] == ClinicalRow(samples, id)
      ensures WellFormed(samples) ==> WellFormed(r)
    {
      Reindex(samples, ids)
    }

    /**
     * `load_data`: the per-modality tables and the target table of a query,
     * all indexed by the same samples in the same order.
     */
    method LoadData(req: Request) returns (r: Result<Dataset, Error>)
      requires Valid()
      ensures r == Query.LoadData(modalities, omics, samples, req)
      ensures r.Ok? ==> forall m :: m in r.value.omics ==> r.value.omics[m].index == r.value.target.index
      ensures r.Ok? ==> forall m :: m in r.value.omics <==> m in Resolve(req.selection, modalities).value
      ensures req.samplesBarcode.None? && Prepare(modalities, omics, samples, req).Ok? ==> r.Ok?
      ensures r.Ok? && req.samplesBarcode.None? ==> Distinct(r.value.target.index)
    {
      var mods :- Resolve(req.selection, modalities);
      var matched :- MatchSamples(mods);
      var ids := matched;
      if req.samplesBarcode.Some? {
        ids := req.samplesBarcode.value;
      }

      var y := GetPatientsClinical(ids);
      y :- FilterIn(y, StageField, req.pathologicStages);
      y :- FilterIn(y, HistologicField, req.histologicalSubtypes);
      y :- FilterIn(y, PredictedField, req.predictedSubtypes);
      y :- FilterIn(y, TumorNormalField, req.tumorNormal);
      y := Project(y, req.target);
      y := DropMissing(y);
      assert Prepare(modalities, omics, samples, req) == Ok(Prepared(mods, ids, y));

      var x: map<Modality, Table> := map[];
      for i := 0 to |mods|
        invariant SliceFrom(x, mods[i..], omics, y.index) == SliceFrom(map[], mods, omics, y.index)
      {
        var m := mods[i];
        assert mods[i..][0] == m && mods[i..][1..] == mods[i + 1..];
        if m !in omics {
          return Err(ModalityNotLoaded(m));
        }
        if !Covers(omics[m], y.index) {
          return Err(SamplesNotInModality(m));
        }
        x := x[m := Slice(omics[m], y.index)];
      }
      assert mods[|mods|..] == [];
      r := Ok(Dataset(x, y));
      LoadDataAligned(modalities, omics, samples, req);
      if req.samplesBarcode.None? {
        NoOverrideAlwaysSlices(modalities, omics, samples, req);
        // The matched barcodes are distinct, and the target keeps a selection of them.
        TargetForIndex(samples, ids, req);
        SelectIdsDistinct(ids, Reindex(samples, ids).rows, ActiveCriteria(req) + [NoMissing(TargetColumns(samples, req))]);
      }
    }

    /**
     * `add_subtypes_to_patients_clinical`: replace the patient table by one
     * with a `predicted_subtype` column looked up from the dictionary. The
     * sample clinical table, a constant, is left as it is.
     */
    method AddSubtypesToPatientsClinical(dictionary: map<Value, Value>) returns (r: Result<(), Error>)
      requires Valid()
      modifies this`patients
      ensures Valid()
      ensures var added := AddSubtypes(old(patients), dictionary);
        if added.Ok? then r == Ok(()) && patients == added.value
        else r == Err(added.error) && patients == old(patients)
    {
      var updated :- AddSubtypes(patients, dictionary);
      patients := updated;
      return Ok(());
    }
  }
}
