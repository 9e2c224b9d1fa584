/** The closed set of omics data types a registry can be built with. */
module Modalities {
  import opened Results

  datatype Modality = WSI | GE | SNP | CNV | DNA | MIR | LNC | PRO

  /** The string tag the registry's callers use for a modality. */
  function Name(m: Modality): string {
    match m
    case WSI => "WSI"
    case GE => "GE"
    case SNP => "SNP"
    case CNV => "CNV"
    case DNA => "DNA"
    case MIR => "MIR"
    case LNC => "LNC"
    case PRO => "PRO"
  }

  /** The modality a string tag names, if any: the tag dispatch of the registry's item lookup. */
  function TagOf(item: string): (r: Option<Modality>)
    ensures r.Some? ==> Name(r.value) == item
    ensures r.None? ==> forall m :: Name(m) != item
  {
    if item == "GE" then Some(GE)
    else if item == "MIR" then Some(MIR)
    else if item == "LNC" then Some(LNC)
    else if item == "WSI" then Some(WSI)
    else if item == "SNP" then Some(SNP)
    else if item == "CNV" then Some(CNV)
    else if item == "DNA" then Some(DNA)
    else if item == "PRO" then Some(PRO)
    else None
  }

  /** Every modality's tag is recognised as that modality. */
  lemma TagOfName(m: Modality)
    ensures TagOf(Name(m)) == Some(m)
  {
  }

  /** The constructor's default modality list. */
  const DefaultModalities: seq<Modality> := [WSI, GE, SNP, CNV, DNA, MIR, LNC, PRO]
}
