/**
 * The sort bar of the match history: three fields, each with an ascending
 * and a descending option, a toggle per field and an arrow icon per field.
 */
module SortBar {
  import opened Text

  datatype SortField = Date | Score | Wtc

  /** The field's name as it appears in the option strings. */
  function FieldName(f: SortField): (r: string)
    ensures |r| >= 3 && '-' !in r
  {
    match f
    case Date => "date"
    case Score => "score"
    case Wtc => "wtc"
  }

  /** The six `SortOption` values, written as the component writes them. */
  datatype SortOption = SortOption(field: SortField, asc: bool)

  function OptionString(o: SortOption): string {
    FieldName(o.field) + (if o.asc then "-asc" else "-desc")
  }

  /** `toggleSort(field)`: ascending unless the field is currently ascending. */
  function ToggleSort(current: string, f: SortField): string {
    var isAsc := current == FieldName(f) + "-asc";
    FieldName(f) + "-" + (if isAsc then "desc" else "asc")
  }

  /**
   * From the field's ascending option the toggle goes to its descending
   * option; from any other option it goes to the field's ascending option.
   * Either way the result is one of the six options and starts with the
   * field's name.
   */
  lemma ToggleSortSpec(current: string, f: SortField)
    ensures current == OptionString(SortOption(f, true)) ==> ToggleSort(current, f) == OptionString(SortOption(f, false))
    ensures current != OptionString(SortOption(f, true)) ==> ToggleSort(current, f) == OptionString(SortOption(f, true))
    ensures StartsWith(ToggleSort(current, f), FieldName(f))
  {
    assert FieldName(f) + "-" + "desc" == FieldName(f) + "-desc";
    assert FieldName(f) + "-" + "asc" == FieldName(f) + "-asc";
  }

  /** Toggling a field twice from its ascending option comes back to it. */
  lemma ToggleTwice(f: SortField)
    ensures ToggleSort(ToggleSort(OptionString(SortOption(f, true)), f), f) == OptionString(SortOption(f, true))
  {
    ToggleSortSpec(OptionString(SortOption(f, true)), f);
    var d := OptionString(SortOption(f, false));
    ToggleSortSpec(d, f);
    assert d[|d| - 4..] == "desc";
    var a := OptionString(SortOption(f, true));
    assert a[|a| - 4..] == "-asc";
  }

  /** `getIcon(field)`: whether the field is the active one, and whether the arrow points up. */
  datatype Icon = Icon(active: bool, up: bool)

  function GetIcon(current: string, f: SortField): Icon {
    Icon(StartsWith(current, FieldName(f)), EndsWith(current, "asc"))
  }

  /**
   * On any of the six options, a field's icon is active exactly when the
   * option is for that field, and the arrow shows the option's direction
   * for every field, active or not.
   */
  lemma GetIconSpec(o: SortOption, f: SortField)
    ensures GetIcon(OptionString(o), f) == Icon(o.field == f, o.asc)
  {
    var s := OptionString(o);
    if o.asc {
      assert s[|s| - 3..] == "asc";
    } else {
      assert s[|s| - 3..] == "esc";
    }
    if o.field != f {
      assert s[..|FieldName(f)|] != FieldName(f) by {
        assert s[0] == FieldName(o.field)[0];
      }
    }
  }
}
