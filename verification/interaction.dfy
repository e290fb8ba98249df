/**
 The page state of src/main.js and the three user actions that change it: the
 theme button, a filter button and the year-sort selector. The initial theme
 comes from browser storage or the colour-scheme preference, so it is a
 parameter here and may be any string.
 */
module Interaction {
  import opened Data
  import opened Catalog

  const Light := "light"
  const Dark := "dark"

  /** The page state: theme plus the list selection. */
  datatype State = State(theme: string, selection: Selection)

  /** A user action. */
  datatype Event = ThemeClick | FilterClick(value: string) | SortChange(value: string)

  /** The state at page load, with the list showing every category, newest first. */
  function Initial(theme: string): (s: State)
    ensures s.theme == theme
    ensures s.selection.filter == AllCategories && s.selection.sortBy == NewestFirst
  {
    State(theme, Selection(AllCategories, NewestFirst))
  }

  /** `applyTheme`: the page is dark exactly when the theme is `dark`. */
  predicate IsDark(theme: string)
    ensures IsDark(theme) <==> theme == Dark
  {
    theme == Dark
  }

  /** `toggleTheme`: `light` becomes `dark`; anything else becomes `light`. */
  function ToggleTheme(s: State): (t: State)
    ensures t.selection == s.selection
    ensures t.theme == Light || t.theme == Dark
    ensures t.theme == Dark <==> s.theme == Light
  {
    s.(theme := if s.theme == Light then Dark else Light)
  }

  /** The state after one user action. */
  function Step(s: State, e: Event): (t: State)
    ensures e.FilterClick? ==> t == s.(selection := s.selection.(filter := e.value))
    ensures e.SortChange? ==> t == s.(selection := s.selection.(sortBy := e.value))
    ensures e.ThemeClick? ==> t == ToggleTheme(s) && t.selection == s.selection
  {
    match e
    case ThemeClick => ToggleTheme(s)
    case FilterClick(v) => State(s.theme, Selection(v, s.selection.sortBy))
    case SortChange(v) => State(s.theme, Selection(s.selection.filter, v))
  }

  /** Toggling twice restores the theme exactly when it was `light` or `dark`. */
  lemma ToggleTwice(s: State)
    ensures ToggleTheme(ToggleTheme(s)) == s <==> s.theme == Light || s.theme == Dark
  {
  }

  /** A toggle switches the page between dark and light exactly when the theme was `light` or `dark`. */
  lemma ToggleFlipsDarkness(s: State)
    ensures IsDark(ToggleTheme(s).theme) != IsDark(s.theme) <==> s.theme == Light || s.theme == Dark
  {
  }

  /** After a filter click the list holds exactly the records the new filter passes. */
  lemma FilterClickShows(pubs: seq<Publication>, s: State, value: string)
    ensures var t := Step(s, FilterClick(value));
      forall p :: multiset(Pipeline(pubs, t.selection))[p] ==
        (if value == AllCategories || p.category == value then multiset(pubs)[p] else 0)
  {
    PipelinePermutation(pubs, value, s.selection.sortBy, s.selection.sortBy);
  }

  /** A sort change leaves the shown records as they were and only reorders them. */
  lemma SortChangeKeepsRecords(pubs: seq<Publication>, s: State, value: string)
    ensures multiset(Pipeline(pubs, Step(s, SortChange(value)).selection)) == multiset(Pipeline(pubs, s.selection))
  {
    PipelinePermutation(pubs, s.selection.filter, value, s.selection.sortBy);
  }

  /** The theme button leaves the list as it was. */
  lemma ThemeClickKeepsList(pubs: seq<Publication>, s: State)
    ensures Pipeline(pubs, Step(s, ThemeClick).selection) == Pipeline(pubs, s.selection)
  {
  }
}
