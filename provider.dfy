/** The shapes of the summary objects the InterOp library hands to the
    pipeline. Loading and summarising the run folder happen outside the
    model; these values are its input. Each record lists the accessors
    the column schema names, and `Get` replaces the source's by-name
    `getattr` lookup with a closed dispatch over those accessors. */
module Provider {
  import opened Cells

  /** The accessors of a per-read, per-lane summary record. */
  datatype LaneField =
    | Lane | ErrorRate | Density | DensityPf | ReadsPf | Reads
    | PercentGtQ30 | PercentAligned | YieldG | Phasing | Prephasing

  /** `summary.at(read).at(lane)`. */
  datatype LaneSummary = LaneSummary(
    lane: Probe, errorRate: Probe, density: Probe, densityPf: Probe,
    readsPf: Probe, readsTotal: Probe, percentGtQ30: Probe, percentAligned: Probe,
    yieldG: Probe, phasing: Probe, prephasing: Probe)
  {
    function Get(f: LaneField): Probe {
      match f
      case Lane => lane
      case ErrorRate => errorRate
      case Density => density
      case DensityPf => densityPf
      case ReadsPf => readsPf
      case Reads => readsTotal
      case PercentGtQ30 => percentGtQ30
      case PercentAligned => percentAligned
      case YieldG => yieldG
      case Phasing => phasing
      case Prephasing => prephasing
    }
  }

  /** The accessors of a read's own description. */
  datatype ReadField = IsIndex | TotalCycles

  /** `summary.at(read).read()`. */
  datatype ReadInfo = ReadInfo(isIndex: Cell, totalCycles: Cell) {
    function Get(f: ReadField): Cell {
      match f
      case IsIndex => isIndex
      case TotalCycles => totalCycles
    }
  }

  /** `summary.at(read)`: the read's description and its lane records. */
  datatype ReadSummary = ReadSummary(read: ReadInfo, lanes: seq<LaneSummary>)

  /** The run summary: `size()` reads, each with `lane_count()` lanes. */
  datatype RunSummary = RunSummary(byRead: seq<ReadSummary>, laneCount: nat) {
    /** `at(read).at(lane)` is defined for every lane below `lane_count()`. */
    predicate Valid() {
      forall n :: 0 <= n < |byRead| ==> laneCount <= |byRead[n].lanes|
    }
  }

  /** The accessors of a per-sample index record. */
  datatype SampleField = SampleId | Index1 | Index2 | FractionMapped

  /** `idx_summary.at(lane).at(i)`. */
  datatype SampleSummary = SampleSummary(
    id: string, sampleId: Cell, index1: Cell, index2: Cell, fractionMapped: Cell)
  {
    function Get(f: SampleField): Cell {
      match f
      case SampleId => sampleId
      case Index1 => index1
      case Index2 => index2
      case FractionMapped => fractionMapped
    }
  }

  /** `idx_summary.at(lane)`: the lane's sample records. */
  datatype LaneIndexSummary = LaneIndexSummary(samples: seq<SampleSummary>)

  /** The index flowcell summary: one group of sample records per lane. */
  datatype IndexFlowcellSummary = IndexFlowcellSummary(lanes: seq<LaneIndexSummary>)
}
