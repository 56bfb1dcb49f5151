/**
 * The three metric tables, loaded once at startup and only read afterwards.
 * Timestamps are opaque ordered instants (`int`); metric values are copied,
 * never computed on.
 */
module Metrics {

  /** A row of `disk_metrics`: `timestamp, available_space_gb, used_space_gb, key`. */
  datatype DiskRow = DiskRow(timestamp: int, availableSpaceGb: real, usedSpaceGb: real, key: string)

  /** A row of `cpu_metrics`: `used_percent, timestamp`. */
  datatype CpuRow = CpuRow(usedPercent: real, timestamp: int)

  /** A row of `memory_metrics`: `used_percent, used_gb, timestamp`. */
  datatype MemoryRow = MemoryRow(usedPercent: real, usedGb: real, timestamp: int)

  datatype Dataset = Dataset(disk: seq<DiskRow>, cpu: seq<CpuRow>, memory: seq<MemoryRow>)

  /** One value of a data-frame column. */
  datatype Cell = Stamp(instant: int) | Number(x: real) | Text(s: string)

  /** The column names of each data frame, as the loading queries select them. */
  const DiskColumns: set<string> := {"timestamp", "available_space_gb", "used_space_gb", "key"}
  const CpuColumns: set<string> := {"used_percent", "timestamp"}
  const MemoryColumns: set<string> := {"used_percent", "used_gb", "timestamp"}

  /** `row[column]` of a disk row: the timestamp, a number, or the text of the `key` column. */
  function DiskCell(row: DiskRow, column: string): (r: Cell)
    requires column in DiskColumns
    ensures r.Stamp? <==> column == "timestamp"
    ensures r.Text? <==> column == "key"
    ensures r.Stamp? ==> r.instant == row.timestamp
    ensures r.Text? ==> r.s == row.key
  {
    match column
    case "timestamp" => Stamp(row.timestamp)
    case "available_space_gb" => Number(row.availableSpaceGb)
    case "used_space_gb" => Number(row.usedSpaceGb)
    case _ => Text(row.key)
  }

  /** `row[column]` of a cpu row: the timestamp, or the one number. */
  function CpuCell(row: CpuRow, column: string): (r: Cell)
    requires column in CpuColumns
    ensures r.Stamp? <==> column == "timestamp"
    ensures r.Stamp? ==> r.instant == row.timestamp
    ensures !r.Text?
  {
    if column == "used_percent" then Number(row.usedPercent) else Stamp(row.timestamp)
  }

  /** `row[column]` of a memory row: the timestamp, or a number. */
  function MemoryCell(row: MemoryRow, column: string): (r: Cell)
    requires column in MemoryColumns
    ensures r.Stamp? <==> column == "timestamp"
    ensures r.Stamp? ==> r.instant == row.timestamp
    ensures !r.Text?
  {
    match column
    case "used_percent" => Number(row.usedPercent)
    case "used_gb" => Number(row.usedGb)
    case _ => Stamp(row.timestamp)
  }

  /** A disk row's columns hold the whole row: reading every column back rebuilds it. */
  lemma DiskCells(row: DiskRow)
    ensures DiskRow(DiskCell(row, "timestamp").instant, DiskCell(row, "available_space_gb").x,
                    DiskCell(row, "used_space_gb").x, DiskCell(row, "key").s) == row
  {
  }

  /** A cpu row's columns hold the whole row. */
  lemma CpuCells(row: CpuRow)
    ensures CpuRow(CpuCell(row, "used_percent").x, CpuCell(row, "timestamp").instant) == row
  {
  }

  /** A memory row's columns hold the whole row. */
  lemma MemoryCells(row: MemoryRow)
    ensures MemoryRow(MemoryCell(row, "used_percent").x, MemoryCell(row, "used_gb").x,
                      MemoryCell(row, "timestamp").instant) == row
  {
  }

  /** The `key` column of the disk table. */
  function DeviceColumn(rows: seq<DiskRow>): (r: seq<string>)
    ensures |r| == |rows|
    ensures forall i :: 0 <= i < |rows| ==> r[i] == rows[i].key
  {
    if rows == [] then [] else [rows[0].key] + DeviceColumn(rows[1..])
  }
}
