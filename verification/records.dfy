/** The `Probe` record and the column-number enumerations of main.py. */
module Records {

  /** One row of the probe table. */
  datatype Probe = Probe(
    probeId: string,
    probeName: string,
    geneId: string,
    geneSymbol: string,
    geneName: string,
    entrezId: string,
    chromosome: string)

  /** The number of fields of a `Probe`. */
  const ProbeWidth: nat := 7

  /** `probe[i]`: positional access to a record's fields. */
  function Field(p: Probe, i: nat): string
    requires i < ProbeWidth
  {
    if i == 0 then p.probeId
    else if i == 1 then p.probeName
    else if i == 2 then p.geneId
    else if i == 3 then p.geneSymbol
    else if i == 4 then p.geneName
    else if i == 5 then p.entrezId
    else p.chromosome
  }

  /** Which field of a probe the report shows. */
  datatype ProbeFilter = ProbeId | ProbeName | GeneId | GeneSymbol | EntrezId | Chromosome
  {
    /** The number the source assigns to each member; the report indexes a `Probe` with it. */
    function Value(): (i: nat)
      ensures i < ProbeWidth
      ensures this != EntrezId ==> i == Column()
    {
      match this
      case ProbeId => 0
      case ProbeName => 1
      case GeneId => 2
      case GeneSymbol => 3
      case EntrezId => 4
      case Chromosome => 6
    }

    /** The field each member is named after. */
    function Named(p: Probe): string {
      match this
      case ProbeId => p.probeId
      case ProbeName => p.probeName
      case GeneId => p.geneId
      case GeneSymbol => p.geneSymbol
      case EntrezId => p.entrezId
      case Chromosome => p.chromosome
    }

    /** The position of the named field in a `Probe`: `Value()` with ENTREZ_ID corrected to 5. */
    function Column(): (i: nat)
      ensures i < ProbeWidth
      ensures forall p: Probe :: Field(p, i) == Named(p)
    {
      match this
      case ProbeId => 0
      case ProbeName => 1
      case GeneId => 2
      case GeneSymbol => 3
      case EntrezId => 5
      case Chromosome => 6
    }
  }

  /** As written, ENTREZ_ID picks a probe's gene name, not its Entrez id. */
  lemma EntrezIdValueSelectsGeneName(p: Probe)
    ensures Field(p, EntrezId.Value()) == p.geneName
    ensures p.geneName != p.entrezId ==> Field(p, EntrezId.Value()) != EntrezId.Named(p)
  {
  }

  /** A probe on which the two disagree. */
  lemma EntrezIdValueMissesEntrezId()
    ensures exists p: Probe :: Field(p, EntrezId.Value()) != EntrezId.Named(p)
  {
    var p := Probe("1058685", "A_23_P20713", "729", "C8G", "complement component 8, gamma polypeptide", "733", "9");
    EntrezIdValueSelectsGeneName(p);
  }

  /** The columns of the sample-annotation table. */
  datatype SampleFilter =
    | StructureId | SlabNum | WellId | SlabType | StructureAcronym | StructureName | PolygonId
    | MriVoxelX | MriVoxelY | MriVoxelZ | MniX | MniY | MniZ
  {
    /** The column number the source assigns to each member. */
    function Value(): (i: nat)
      ensures i < 13
    {
      match this
      case StructureId => 0
      case SlabNum => 1
      case WellId => 2
      case SlabType => 3
      case StructureAcronym => 4
      case StructureName => 5
      case PolygonId => 6
      case MriVoxelX => 7
      case MriVoxelY => 8
      case MriVoxelZ => 9
      case MniX => 10
      case MniY => 11
      case MniZ => 12
    }
  }
}
