/**
 * The running dashboard: the plot template in force and the page layout,
 * both replaced when the reader switches theme.
 */
module Dashboard {
  import opened Wrappers
  import opened PyStr
  import opened Metrics
  import opened Url
  import opened Page
  import Theme

  class App {
    /** The tables loaded at start-up. */
    const data: Dataset
    /** `pio.templates.default`. */
    var template: string
    /** `app.layout`. */
    var layout: Layout

    /** The template and the layout always belong to the same theme, and the layout is the one `get_layout` builds. */
    ghost predicate Valid()
      reads this
    {
      data.disk != [] &&
      GetLayout(layout.className, data.disk) == Ok(layout) &&
      template == Theme.TemplateFor(layout.className)
    }

    /** Start-up: the light template and the light layout. */
    constructor (data: Dataset)
      requires data.disk != []
      ensures Valid()
      ensures this.data == data
      ensures template == "plotly" && layout.className == "light"
    {
      this.data := data;
      template := "plotly";
      layout := GetLayout("light", data.disk).value;
    }

    /**
     * `reload_with_theme(theme, href)`: the href to reload with the theme
     * set in its query, and the new class name of the page; the template
     * and the layout switch to `theme`.
     */
    method ReloadWithTheme(theme: string, href: string) returns (newHref: string, className: string)
      requires Valid()
      modifies this
      ensures Valid()
      ensures newHref == Theme.NewHref(theme, href) && className == theme
      ensures layout == GetLayout(theme, data.disk).value && template == Theme.TemplateFor(theme)
      ensures theme == "light" || theme == "dark" ==> Theme.ApplyTheme(Theme.Search(newHref)) == theme
    {
      var fragment := Theme.FragmentOf(href);
      var (base, _, query) := Partition(Theme.BeforeFragment(href), '?');
      var params := ParseQs(query);
      params := Set(params, "theme", [theme]);
      var newQuery := UrlEncode(params);
      if theme == "dark" {
        template := "plotly_dark";
      } else {
        template := "plotly";
      }
      layout := GetLayout(theme, data.disk).value;
      newHref := base + ['?'] + newQuery + fragment;
      className := theme;
      if theme == "light" || theme == "dark" {
        Theme.ThemeRoundTrip(theme, href);
      }
    }
  }
}
