/**
 * The chart projector: `update_graph` turns the current selections and the
 * loaded tables into the graph config and a one-trace figure.
 */
module Chart {
  import opened Wrappers
  import opened PyStr
  import opened Metrics

  /** One (x, y) point of the trace. */
  datatype Point = Point(x: int, y: Cell)

  /** The figure `update_graph` builds: one scatter trace plus its layout. */
  datatype Figure = Figure(
    points: seq<Point>,
    mode: string,
    name: string,
    colour: string,
    title: string,
    xAxisTitle: string,
    yAxisTitle: string,
    hoverMode: string)

  /** The graph's `config` output. */
  datatype Config = Config(scrollZoom: bool)

  datatype Graph = Graph(config: Config, figure: Figure)

  /**
   * What `update_graph` raises: `UnboundLocalError` on `fig` for a table
   * outside the three, `KeyError` for a column the data frame lacks.
   */
  datatype GraphError = FigureUnbound | KeyError(column: string)

  const Tables: seq<string> := ["disk", "cpu", "memory"]

  /** `disk_df[disk_df['key'] == device]`: the rows of that device, in table order. */
  function FilterByKey(rows: seq<DiskRow>, device: string): (r: seq<DiskRow>)
    ensures |r| <= |rows|
    ensures forall x :: x in r <==> x in rows && x.key == device
  {
    if rows == [] then []
    else (if rows[0].key == device then [rows[0]] else []) + FilterByKey(rows[1..], device)
  }

  /** The mask keeps the table order: filtering a concatenation filters each part. */
  lemma {:induction false} FilterConcat(a: seq<DiskRow>, b: seq<DiskRow>, device: string)
    ensures FilterByKey(a + b, device) == FilterByKey(a, device) + FilterByKey(b, device)
  {
    if a == [] {
      assert a + b == b;
    } else {
      assert (a + b)[0] == a[0] && (a + b)[1..] == a[1..] + b;
      FilterConcat(a[1..], b, device);
    }
  }

  /** The filtered table has one row for each occurrence of the device in the `key` column. */
  lemma {:induction false} FilterCount(rows: seq<DiskRow>, device: string)
    ensures |FilterByKey(rows, device)| == multiset(DeviceColumn(rows))[device]
  {
    if rows != [] {
      FilterCount(rows[1..], device);
      assert DeviceColumn(rows) == [rows[0].key] + DeviceColumn(rows[1..]);
    }
  }

  /** Filtering twice by the same device changes nothing. */
  lemma {:induction false} FilterIdempotent(rows: seq<DiskRow>, device: string)
    ensures FilterByKey(FilterByKey(rows, device), device) == FilterByKey(rows, device)
  {
    if rows != [] {
      var head := if rows[0].key == device then [rows[0]] else [];
      FilterConcat(head, FilterByKey(rows[1..], device), device);
      FilterIdempotent(rows[1..], device);
      assert FilterByKey(head, device) == head by {
        if head != [] {
          assert head[1..] == [];
        }
      }
    }
  }

  function DiskSeries(rows: seq<DiskRow>, column: string): (r: seq<Point>)
    requires column in DiskColumns
    ensures |r| == |rows|
  {
    seq(|rows|, i requires 0 <= i < |rows| => Point(rows[i].timestamp, DiskCell(rows[i], column)))
  }

  function CpuSeries(rows: seq<CpuRow>, column: string): (r: seq<Point>)
    requires column in CpuColumns
    ensures |r| == |rows|
  {
    seq(|rows|, i requires 0 <= i < |rows| => Point(rows[i].timestamp, CpuCell(rows[i], column)))
  }

  function MemorySeries(rows: seq<MemoryRow>, column: string): (r: seq<Point>)
    requires column in MemoryColumns
    ensures |r| == |rows|
  {
    seq(|rows|, i requires 0 <= i < |rows| => Point(rows[i].timestamp, MemoryCell(rows[i], column)))
  }

  /** `column.replace('_', ' ').title()`. */
  function ColumnTitle(column: string): (r: string)
    ensures |r| == |column|
  {
    Title(Replace(column, '_', ' '))
  }

  /** In a column's title every underscore is a space, and every other uncased character is kept. */
  lemma ColumnTitleAt(column: string, i: nat)
    requires i < |column|
    ensures column[i] == '_' ==> ColumnTitle(column)[i] == ' '
    ensures column[i] != '_' && !IsCased(column[i]) ==> ColumnTitle(column)[i] == column[i]
    ensures IsCased(column[i]) ==>
      ColumnTitle(column)[i] == if StartsWord(column, i) then ToUpper(column[i]) else ToLower(column[i])
  {
    ReplaceAt(column, '_', ' ', i);
    if i > 0 {
      ReplaceAt(column, '_', ' ', i - 1);
    }
    TitleAt(Replace(column, '_', ' '), i);
  }

  /** A figure with the fixed trace mode and axis titles of every chart. */
  function MakeFigure(points: seq<Point>, name: string, colour: string, title: string): (r: Figure)
    ensures r.points == points && r.name == name && r.colour == colour && r.title == title
    ensures r.mode == "lines+markers" && r.hoverMode == "x unified"
    ensures r.xAxisTitle == "Timestamp" && r.yAxisTitle == "Value"
  {
    Figure(points, "lines+markers", name, colour, title, "Timestamp", "Value", "x unified")
  }

  /** `update_graph(selected_table, disk_column, disk_device, cpu_column, memory_column)`. */
  function UpdateGraph(data: Dataset, table: string, diskColumn: string, diskDevice: string,
                       cpuColumn: string, memoryColumn: string): (r: Result<Graph, GraphError>)
    ensures r.Ok? <==>
      (table == "disk" && diskColumn in DiskColumns) ||
      (table == "cpu" && cpuColumn in CpuColumns) ||
      (table == "memory" && memoryColumn in MemoryColumns)
    ensures r.Err? && table !in Tables ==> r.error == FigureUnbound
    ensures r.Err? && table in Tables ==> r.error.KeyError?
    ensures r.Ok? ==> r.value.config == Config(true)
  {
    if table == "disk" then
      var deviceData := FilterByKey(data.disk, diskDevice);
      if diskColumn !in DiskColumns then Err(KeyError(diskColumn))
      else
        var title := ColumnTitle(diskColumn) + " Over Time for " + diskDevice;
        Ok(Graph(Config(true), MakeFigure(DiskSeries(deviceData, diskColumn), diskColumn, "blue", title)))
    else if table == "cpu" then
      if cpuColumn !in CpuColumns then Err(KeyError(cpuColumn))
      else
        var title := ColumnTitle(cpuColumn) + " Over Time";
        Ok(Graph(Config(true), MakeFigure(CpuSeries(data.cpu, cpuColumn), cpuColumn, "orange", title)))
    else if table == "memory" then
      if memoryColumn !in MemoryColumns then Err(KeyError(memoryColumn))
      else
        var title := ColumnTitle(memoryColumn) + " Over Time";
        Ok(Graph(Config(true), MakeFigure(MemorySeries(data.memory, memoryColumn), memoryColumn, "green", title)))
    else
      Err(FigureUnbound)
  }

  /**
   * The disk chart plots exactly the rows of the selected device, in table
   * order: one point per such row, which is how many times the device
   * occurs in the `key` column (none when it does not occur); the trace is
   * blue and named after the column, and the title names the column and
   * the device.
   */
  lemma DiskChart(data: Dataset, column: string, device: string, cpuColumn: string, memoryColumn: string)
    requires column in DiskColumns
    ensures var r := UpdateGraph(data, "disk", column, device, cpuColumn, memoryColumn);
      var rows := FilterByKey(data.disk, device);
      r.Ok? &&
      var f := r.value.figure;
      |f.points| == |rows| == multiset(DeviceColumn(data.disk))[device] &&
      (forall i :: 0 <= i < |rows| ==>
        rows[i].key == device && f.points[i] == Point(rows[i].timestamp, DiskCell(rows[i], column))) &&
      f.colour == "blue" && f.name == column &&
      f.title == ColumnTitle(column) + " Over Time for " + device
  {
    var rows := FilterByKey(data.disk, device);
    FilterCount(data.disk, device);
    forall i | 0 <= i < |rows|
      ensures rows[i].key == device
    {
      assert rows[i] in rows;
    }
  }

  /** The cpu chart plots the whole cpu table, row by row, in orange. */
  lemma CpuChart(data: Dataset, diskColumn: string, device: string, column: string, memoryColumn: string)
    requires column in CpuColumns
    ensures var r := UpdateGraph(data, "cpu", diskColumn, device, column, memoryColumn);
      r.Ok? &&
      var f := r.value.figure;
      |f.points| == |data.cpu| &&
      (forall i :: 0 <= i < |data.cpu| ==>
        f.points[i] == Point(data.cpu[i].timestamp, CpuCell(data.cpu[i], column))) &&
      f.colour == "orange" && f.name == column &&
      f.title == ColumnTitle(column) + " Over Time"
  {
  }

  /** The memory chart plots the whole memory table, row by row, in green. */
  lemma MemoryChart(data: Dataset, diskColumn: string, device: string, cpuColumn: string, column: string)
    requires column in MemoryColumns
    ensures var r := UpdateGraph(data, "memory", diskColumn, device, cpuColumn, column);
      r.Ok? &&
      var f := r.value.figure;
      |f.points| == |data.memory| &&
      (forall i :: 0 <= i < |data.memory| ==>
        f.points[i] == Point(data.memory[i].timestamp, MemoryCell(data.memory[i], column))) &&
      f.colour == "green" && f.name == column &&
      f.title == ColumnTitle(column) + " Over Time"
  {
  }

  /** A single lower-case word is titled by capitalising it. */
  lemma WordColumnTitle(w: string)
    requires IsLowerWord(w)
    ensures ColumnTitle(w) == Capitalised(w)
  {
    TitleLowerWord(w);
    ReplaceAbsent(w, '_', ' ');
  }

  /**
   * A snake-case name starting with a lower-case word: that word is
   * capitalised and the underscore after it becomes a space.
   */
  lemma SnakeColumnTitle(w: string, tail: string)
    requires IsLowerWord(w)
    ensures ColumnTitle(w + ['_'] + tail) == Capitalised(w) + [' '] + ColumnTitle(tail)
  {
    TitleLowerWord(w);
    ReplaceConcat(w + ['_'], tail, '_', ' ');
    ReplaceConcat(w, ['_'], '_', ' ');
    ReplaceAbsent(w, '_', ' ');
    assert Replace(['_'], '_', ' ') == [' '];
    TitleSpaced(w, Replace(tail, '_', ' '));
  }

  /** `available_space_gb` is titled "Available Space Gb". */
  lemma AvailableSpaceTitle()
    ensures ColumnTitle("available_space_gb") == "Available Space Gb"
  {
    var available, space, gb := "available", "space", "gb";
    assert IsLowerWord(available) && IsLowerWord(space) && IsLowerWord(gb);
    assert ColumnTitle(available + ['_'] + (space + ['_'] + gb)) ==
      Capitalised(available) + [' '] + (Capitalised(space) + [' '] + Capitalised(gb)) by {
      WordColumnTitle(gb);
      SnakeColumnTitle(space, gb);
      SnakeColumnTitle(available, space + ['_'] + gb);
    }
    assert Capitalised(available) == "Available" && Capitalised(space) == "Space" && Capitalised(gb) == "Gb";
    assert "available_space_gb" == available + ['_'] + (space + ['_'] + gb);
    assert "Available Space Gb" == "Available" + [' '] + ("Space" + [' '] + "Gb");
  }

  /** `used_space_gb` is titled "Used Space Gb". */
  lemma UsedSpaceTitle()
    ensures ColumnTitle("used_space_gb") == "Used Space Gb"
  {
    var used, space, gb := "used", "space", "gb";
    assert IsLowerWord(used) && IsLowerWord(space) && IsLowerWord(gb);
    assert ColumnTitle(used + ['_'] + (space + ['_'] + gb)) ==
      Capitalised(used) + [' '] + (Capitalised(space) + [' '] + Capitalised(gb)) by {
      WordColumnTitle(gb);
      SnakeColumnTitle(space, gb);
      SnakeColumnTitle(used, space + ['_'] + gb);
    }
    assert Capitalised(used) == "Used" && Capitalised(space) == "Space" && Capitalised(gb) == "Gb";
    assert "used_space_gb" == used + ['_'] + (space + ['_'] + gb);
    assert "Used Space Gb" == "Used" + [' '] + ("Space" + [' '] + "Gb");
  }

  /** `used_percent` is titled "Used Percent". */
  lemma UsedPercentTitle()
    ensures ColumnTitle("used_percent") == "Used Percent"
  {
    var used, percent := "used", "percent";
    assert IsLowerWord(used) && IsLowerWord(percent);
    calc {
      ColumnTitle("used_percent");
      { assert "used_percent" == used + ['_'] + percent; }
      ColumnTitle(used + ['_'] + percent);
      { WordColumnTitle(percent); SnakeColumnTitle(used, percent); }
      Capitalised(used) + [' '] + Capitalised(percent);
      { assert Capitalised(used) == "Used" && Capitalised(percent) == "Percent"; }
      "Used" + [' '] + "Percent";
      "Used Percent";
    }
  }

  /** `used_gb` is titled "Used Gb". */
  lemma UsedGbTitle()
    ensures ColumnTitle("used_gb") == "Used Gb"
  {
    var used, gb := "used", "gb";
    assert IsLowerWord(used) && IsLowerWord(gb);
    assert ColumnTitle(used + ['_'] + gb) == Capitalised(used) + [' '] + Capitalised(gb) by {
      WordColumnTitle(gb);
      SnakeColumnTitle(used, gb);
    }
    assert Capitalised(used) == "Used" && Capitalised(gb) == "Gb";
    assert "used_gb" == used + ['_'] + gb;
    assert "Used Gb" == "Used" + [' '] + "Gb";
  }
}
