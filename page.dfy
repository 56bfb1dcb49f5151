/**
 * What `get_layout(theme)` decides: the theme colours and the initial
 * value and options of every dropdown. The component tree itself is not
 * modelled.
 */
module Page {
  import opened Wrappers
  import opened PyStr
  import opened Metrics
  import opened Chart
  import opened Controls
  import Theme

  /** `(background, text)` colours for a theme: dark only for `dark`, and text never in the background's colour. */
  function Colours(theme: string): (r: (string, string))
    ensures r.0 != r.1
    ensures r.0 == "#121212" <==> theme == "dark"
    ensures r.1 == "#ffffff" <==> theme == "dark"
  {
    if theme == "dark" then ("#121212", "#ffffff") else ("#ffffff", "#000000")
  }

  /** The style tokens of both themes: template, background and text switch together. */
  lemma ThemeTokens(theme: string)
    ensures theme == "dark" ==>
      Theme.TemplateFor(theme) == "plotly_dark" && Colours(theme) == ("#121212", "#ffffff")
    ensures theme != "dark" ==>
      Theme.TemplateFor(theme) == "plotly" && Colours(theme) == ("#ffffff", "#000000")
    ensures Colours(theme).0 != Colours(theme).1
    ensures Theme.TemplateFor(theme) == "plotly_dark" <==> Colours(theme) == ("#121212", "#ffffff")
  {
  }

  /** `unique()` scanning `s` after the values in `seen`: first appearances, in order. */
  function UniqueFrom(s: seq<string>, seen: set<string>): seq<string>
  {
    if s == [] then []
    else if s[0] in seen then UniqueFrom(s[1..], seen)
    else [s[0]] + UniqueFrom(s[1..], seen + {s[0]})
  }

  /** Adding a value already seen changes nothing. */
  lemma AddSeen(seen: set<string>, x: string)
    requires x in seen
    ensures seen + {x} == seen
  {
  }

  /** The scan keeps exactly the values of `s` not seen before it. */
  lemma {:induction false} UniqueFromMember(s: seq<string>, seen: set<string>, x: string)
    ensures x in UniqueFrom(s, seen) <==> x in s && x !in seen
  {
    if s != [] {
      UniqueFromMember(s[1..], if s[0] in seen then seen else seen + {s[0]}, x);
    }
  }

  /** The scan keeps each value once. */
  lemma {:induction false} UniqueFromDistinct(s: seq<string>, seen: set<string>, i: nat, j: nat)
    requires i < j < |UniqueFrom(s, seen)|
    ensures UniqueFrom(s, seen)[i] != UniqueFrom(s, seen)[j]
    decreases |s|
  {
    if s[0] in seen {
      assert UniqueFrom(s, seen) == UniqueFrom(s[1..], seen);
      UniqueFromDistinct(s[1..], seen, i, j);
    } else {
      var rest := UniqueFrom(s[1..], seen + {s[0]});
      assert UniqueFrom(s, seen) == [s[0]] + rest;
      if i == 0 {
        UniqueFromMember(s[1..], seen + {s[0]}, s[0]);
        assert rest[j - 1] in rest;
      } else {
        UniqueFromDistinct(s[1..], seen + {s[0]}, i - 1, j - 1);
      }
    }
  }

  /** `series.unique()`: each value once, in order of first appearance. */
  function Unique(s: seq<string>): (r: seq<string>)
    ensures forall x :: x in r <==> x in s
    ensures forall i, j :: 0 <= i < j < |r| ==> r[i] != r[j]
    ensures s != [] ==> r != [] && r[0] == s[0]
  {
    assert forall i, j :: 0 <= i < j < |UniqueFrom(s, {})| ==> UniqueFrom(s, {})[i] != UniqueFrom(s, {})[j] by {
      forall i, j | 0 <= i < j < |UniqueFrom(s, {})|
        ensures UniqueFrom(s, {})[i] != UniqueFrom(s, {})[j]
      {
        UniqueFromDistinct(s, {}, i, j);
      }
    }
    assert forall x :: x in UniqueFrom(s, {}) <==> x in s by {
      forall x
        ensures x in UniqueFrom(s, {}) <==> x in s
      {
        UniqueFromMember(s, {}, x);
      }
    }
    assert s != [] ==> UniqueFrom(s, {}) == [s[0]] + UniqueFrom(s[1..], {} + {s[0]});
    UniqueFrom(s, {})
  }

  /**
   * Position `k` of the values kept from the tail: it is not the head, it
   * first occurs one place later in `s` than in the tail, and it sits at
   * `k` of the whole scan, or at `k + 1` when the head is kept.
   */
  lemma UniqueFromTail(s: seq<string>, seen: set<string>, k: nat)
    requires s != [] && k < |UniqueFrom(s[1..], seen + {s[0]})|
    ensures var x := UniqueFrom(s[1..], seen + {s[0]})[k];
      var h := if s[0] in seen then 0 else 1;
      x != s[0] && x in s && IndexOf(s, x) == 1 + IndexOf(s[1..], x) &&
      k + h < |UniqueFrom(s, seen)| && UniqueFrom(s, seen)[k + h] == x
  {
    var rest := UniqueFrom(s[1..], seen + {s[0]});
    var x := rest[k];
    UniqueFromMember(s[1..], seen + {s[0]}, x);
    HeadTail([], s);
    if s[0] in seen {
      AddSeen(seen, s[0]);
    } else {
      assert UniqueFrom(s, seen) == [s[0]] + rest;
    }
  }

  lemma {:induction false} UniqueFromOrder(s: seq<string>, seen: set<string>, i: nat, j: nat)
    requires i < j < |UniqueFrom(s, seen)|
    ensures var r := UniqueFrom(s, seen);
      r[i] in s && r[j] in s && IndexOf(s, r[i]) < IndexOf(s, r[j])
    decreases |s|
  {
    var seen' := seen + {s[0]};
    var r, rest := UniqueFrom(s, seen), UniqueFrom(s[1..], seen');
    if s[0] in seen {
      AddSeen(seen, s[0]);
      UniqueFromTail(s, seen, i);
      UniqueFromTail(s, seen, j);
      assert r[i] == rest[i] && r[j] == rest[j];
      UniqueFromOrder(s[1..], seen', i, j);
    } else {
      UniqueFromTail(s, seen, j - 1);
      assert r[j] == rest[j - 1];
      if i == 0 {
        assert r[0] == s[0];
      } else {
        UniqueFromTail(s, seen, i - 1);
        assert r[i] == rest[i - 1];
        UniqueFromOrder(s[1..], seen', i - 1, j - 1);
      }
    }
  }

  /** The values of `unique()` appear in the order in which they first occur. */
  lemma UniqueOrder(s: seq<string>)
    ensures var r := Unique(s);
      forall i, j :: 0 <= i < j < |r| ==> IndexOf(s, r[i]) < IndexOf(s, r[j])
  {
    forall i, j | 0 <= i < j < |Unique(s)|
      ensures IndexOf(s, Unique(s)[i]) < IndexOf(s, Unique(s)[j])
    {
      UniqueFromOrder(s, {}, i, j);
    }
  }

  /** The options each dropdown offers. */
  const DiskColumnOptions: seq<string> := ["available_space_gb", "used_space_gb"]
  const CpuColumnOptions: seq<string> := ["used_percent"]
  const MemoryColumnOptions: seq<string> := ["used_gb", "used_percent"]

  /** What `get_layout(theme)` fixes: colours, class name and the dropdowns' initial state. */
  datatype Layout = Layout(
    className: string,
    background: string,
    text: string,
    themeValue: string,
    table: string,
    diskColumn: string,
    deviceOptions: seq<string>,
    device: string,
    cpuColumn: string,
    memoryColumn: string)

  /** `disk_df["key"].unique()[0]` raises on an empty disk table. */
  datatype LayoutError = IndexError

  /** `get_layout(theme)` over the loaded disk rows. */
  function GetLayout(theme: string, disk: seq<DiskRow>): (r: Result<Layout, LayoutError>)
    ensures r.Ok? <==> disk != []
    ensures r.Ok? ==>
      var l := r.value;
      l.className == theme && l.themeValue == theme &&
      (l.background, l.text) == Colours(theme) &&
      l.table == "disk" && l.diskColumn == "available_space_gb" &&
      l.cpuColumn == "used_percent" && l.memoryColumn == "used_gb" &&
      l.device == disk[0].key &&
      (forall k :: k in l.deviceOptions <==> exists row :: row in disk && row.key == k) &&
      (forall i, j :: 0 <= i < j < |l.deviceOptions| ==> l.deviceOptions[i] != l.deviceOptions[j])
    ensures r.Ok? ==>
      r.value.deviceOptions == Unique(DeviceColumn(disk)) && r.value.device == r.value.deviceOptions[0]
  {
    var devices := Unique(DeviceColumn(disk));
    if devices == [] then Err(IndexError)
    else
      var (background, text) := Colours(theme);
      assert forall k :: k in devices ==> exists row :: row in disk && row.key == k by {
        forall k | k in devices
          ensures exists row :: row in disk && row.key == k
        {
          var i := IndexOf(DeviceColumn(disk), k);
          assert disk[i] in disk;
        }
      }
      assert forall row :: row in disk ==> row.key in devices by {
        forall row | row in disk
          ensures row.key in devices
        {
          var i :| 0 <= i < |disk| && disk[i] == row;
          assert DeviceColumn(disk)[i] == row.key;
        }
      }
      Ok(Layout(theme, background, text, theme, "disk", "available_space_gb", devices, devices[0],
                "used_percent", "used_gb"))
  }

  /**
   * Every combination the dropdowns can offer draws a chart: a device that
   * the options list has at least one point, and the controls of the
   * selected table are the ones shown.
   */
  lemma DropdownsDrawCharts(data: Dataset, table: string, diskColumn: string, device: string,
                            cpuColumn: string, memoryColumn: string)
    requires table in Tables && diskColumn in DiskColumnOptions
    requires cpuColumn in CpuColumnOptions && memoryColumn in MemoryColumnOptions
    ensures var r := UpdateGraph(data, table, diskColumn, device, cpuColumn, memoryColumn);
      r.Ok? && ToggleControls(table).Some? &&
      (table == "disk" && device in Unique(DeviceColumn(data.disk)) ==> |r.value.figure.points| > 0)
  {
    if table == "disk" {
      DiskChart(data, diskColumn, device, cpuColumn, memoryColumn);
    }
  }

  /**
   * The first page a reader sees: the disk controls are shown and the
   * chart plots the available space of the first device, which has at
   * least one point.
   */
  lemma InitialChart(data: Dataset, theme: string)
    requires data.disk != []
    ensures var l := GetLayout(theme, data.disk).value;
      var r := UpdateGraph(data, l.table, l.diskColumn, l.device, l.cpuColumn, l.memoryColumn);
      ToggleControls(l.table) == Some((Style("block"), Style("none"), Style("none"))) &&
      r.Ok? && |r.value.figure.points| > 0 &&
      r.value.figure.title == "Available Space Gb" + " Over Time for " + data.disk[0].key
  {
    var l := GetLayout(theme, data.disk).value;
    var device := data.disk[0].key;
    assert l.table == "disk" && l.diskColumn == "available_space_gb" && l.device == device;
    DiskControlsShown();
    var r := UpdateGraph(data, "disk", "available_space_gb", device, l.cpuColumn, l.memoryColumn);
    assert r.Ok? && |r.value.figure.points| > 0 &&
      r.value.figure.title == "Available Space Gb" + " Over Time for " + device by {
      FirstDeviceCounted(data.disk);
      DiskChart(data, "available_space_gb", device, l.cpuColumn, l.memoryColumn);
      AvailableSpaceTitle();
    }
  }

  /** Selecting the disk table shows the disk controls only. */
  lemma DiskControlsShown()
    ensures ToggleControls("disk") == Some((Style("block"), Style("none"), Style("none")))
  {
    var r := ToggleControls("disk");
    assert Tables[0] == "disk" && Tables[1] != "disk" && Tables[2] != "disk";
    assert StyleAt(r.value, 0) == Style("block");
    assert StyleAt(r.value, 1) == Style("none");
    assert StyleAt(r.value, 2) == Style("none");
  }

  /** The device of the first disk row occurs in the device column. */
  lemma FirstDeviceCounted(disk: seq<DiskRow>)
    requires disk != []
    ensures multiset(DeviceColumn(disk))[disk[0].key] > 0
  {
    assert DeviceColumn(disk)[0] == disk[0].key;
    assert disk[0].key in DeviceColumn(disk);
  }
}
