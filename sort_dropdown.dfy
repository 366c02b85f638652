/** `SortDropdown`: the selected sort is encoded as the option value "key:order" and decoded
    again by splitting at ':'. */
module SortDropdown {
  import opened Wrappers
  import opened Text
  import opened Values

  /** The `{ key, order }` the dropdown reports; a value without ':' has no order. */
  datatype Selection = Selection(key: string, order: Option<string>)

  const Colon: set<char> := {':'}

  /** The option value shown as selected: "" when no key is set, otherwise `${key}:${order}`
      (an absent order is printed as "undefined"). */
  function Encode(v: Selection): string
  {
    if v.key == "" then ""
    else v.key + ":" + (match v.order case Some(o) => o case None => "undefined")
  }

  /** `handleChange`: `const [key, order] = value.split(":")`. */
  function Decode(value: string): Selection
  {
    var parts := Split(value, Colon);
    Selection(parts[0], if |parts| > 1 then Some(parts[1]) else None)
  }

  /** A value without ':' is all key, with no order. */
  lemma DecodeWithoutColon(value: string)
    requires NoneOf(value, Colon)
    ensures Decode(value) == Selection(value, None)
  {
    SplitWithoutSeparator(value, Colon);
  }

  /** Decoding undoes encoding for a key and an order without ':'. */
  lemma DecodeEncode(key: string, order: string)
    requires key != "" && NoneOf(key, Colon) && NoneOf(order, Colon)
    ensures Decode(Encode(Selection(key, Some(order)))) == Selection(key, Some(order))
  {
    SplitAtFirstSeparator(key, ':', order, Colon);
    SplitWithoutSeparator(order, Colon);
    assert Encode(Selection(key, Some(order))) == key + [':'] + order;
  }

  /** The placeholder decodes to an empty key and no order. */
  lemma DecodePlaceholder()
    ensures Decode("") == Selection("", None)
  {
    DecodeWithoutColon("");
  }

  /** The option values, with `sep` between key and order: the placeholder, then an ascending
      and a descending option for every column, in column order. */
  function Options(columns: seq<Column>, sep: char): (options: seq<string>)
    ensures |options| == 2 * |columns| + 1 && options[0] == ""
    decreases |columns|
  {
    if columns == [] then [""]
    else
      var last := columns[|columns| - 1];
      Options(columns[..|columns| - 1], sep) + [last.key + [sep] + "asc", last.key + [sep] + "desc"]
  }

  /** Column i contributes the options at 2i+1 (ascending) and 2i+2 (descending). */
  lemma {:induction false} OptionsAt(columns: seq<Column>, sep: char, i: int)
    requires 0 <= i < |columns|
    ensures Options(columns, sep)[2 * i + 1] == columns[i].key + [sep] + "asc"
    ensures Options(columns, sep)[2 * i + 2] == columns[i].key + [sep] + "desc"
    decreases |columns|
  {
    var init := columns[..|columns| - 1];
    if i < |columns| - 1 {
      OptionsAt(init, sep, i);
      assert init[i] == columns[i];
    }
  }

  /** The two option values of a key decode to that key with "asc" and "desc". */
  lemma KeyOptionsDecode(key: string)
    requires key != "" && NoneOf(key, Colon)
    ensures Decode(key + [':'] + "asc") == Selection(key, Some("asc"))
    ensures Decode(key + [':'] + "desc") == Selection(key, Some("desc"))
  {
    assert NoneOf("asc", Colon) && NoneOf("desc", Colon);
    DecodeEncode(key, "asc");
    DecodeEncode(key, "desc");
    assert key + [':'] + "asc" == Encode(Selection(key, Some("asc")));
    assert key + [':'] + "desc" == Encode(Selection(key, Some("desc")));
  }

  /** Selecting a column's option reports that column's key with "asc" or "desc". */
  lemma OptionsDecode(columns: seq<Column>, i: int)
    requires 0 <= i < |columns| && NoneOf(columns[i].key, Colon) && columns[i].key != ""
    ensures Decode(Options(columns, ':')[2 * i + 1]) == Selection(columns[i].key, Some("asc"))
    ensures Decode(Options(columns, ':')[2 * i + 2]) == Selection(columns[i].key, Some("desc"))
  {
    OptionsAt(columns, ':', i);
    KeyOptionsDecode(columns[i].key);
  }
}
