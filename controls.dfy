/** The control-visibility resolver: `toggle_controls`. */
module Controls {
  import opened Wrappers
  import opened Chart

  /** A `{'display': ...}` style dict. */
  datatype Style = Style(display: string)

  /** The styles of the disk, cpu and memory control groups, in that order. */
  type Styles = (Style, Style, Style)

  function StyleAt(s: Styles, i: nat): Style
    requires i < 3
  {
    if i == 0 then s.0 else if i == 1 then s.1 else s.2
  }

  /**
   * `toggle_controls(selected_table)`: for each of the three tables, the
   * group in that table's position is shown and the other two are hidden;
   * any other value falls off the end of the function, which returns nothing.
   */
  function ToggleControls(selected: string): (r: Option<Styles>)
    ensures r.Some? <==> selected in Tables
    ensures r.Some? ==> forall i :: 0 <= i < 3 ==>
      (StyleAt(r.value, i) == Style("block") <==> Tables[i] == selected) &&
      (StyleAt(r.value, i) == Style("none") <==> Tables[i] != selected)
  {
    if selected == "disk" then Some((Style("block"), Style("none"), Style("none")))
    else if selected == "cpu" then Some((Style("none"), Style("block"), Style("none")))
    else if selected == "memory" then Some((Style("none"), Style("none"), Style("block")))
    else None
  }

  /**
   * The two callbacks agree on which tables exist: a table shows a control
   * group exactly when `update_graph` gets past its table dispatch.
   */
  lemma ControlsMatchGraph(data: Metrics.Dataset, table: string, diskColumn: string, device: string,
                           cpuColumn: string, memoryColumn: string)
    ensures ToggleControls(table).Some? <==>
      UpdateGraph(data, table, diskColumn, device, cpuColumn, memoryColumn) != Err(FigureUnbound)
  {
  }
}
