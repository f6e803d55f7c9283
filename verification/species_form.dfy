/** The species forms of the squat-lobster identifier (`save_species` and
    `update_species`): how the text typed into each box becomes a column
    value, and which missing values stop the save. Image handling and the
    database write are not modelled. */
module SpeciesForm {
  import opened Wrappers
  import Text

  /** The yes-or-no trait columns, stored as 1, 0 or `NULL`. */
  const BooleanFields: set<string> := {
    "carapace_lines", "posterior_spines", "cardiac_spines", "fourth_abdominal_spine",
    "abdominal_midline_spines", "rostrum_spines", "ocular_peduncle_spines"}

  /** A column value: an integer flag, a text, or `NULL`. */
  datatype Cell = Flag(n: int) | Txt(s: string) | Null

  /** The flag the registration form stores for a (stripped) box: "true",
      "1" or "sí" in any case give 1, "false", "0" or "no" give 0, anything
      else leaves the trait unknown. */
  function RegisterFlag(value: string): (c: Cell)
    ensures c == Flag(1) <==> Text.Lower(value) == "true" || value == "1" || Text.Lower(value) == "sí"
    ensures c == Flag(0) <==>
      !(Text.Lower(value) == "true" || value == "1" || Text.Lower(value) == "sí")
      && (Text.Lower(value) == "false" || value == "0" || Text.Lower(value) == "no")
    ensures c == Flag(0) || c == Flag(1) || c == Null
  {
    var low := Text.Lower(value);
    if low == "true" || value == "1" || low == "sí" then Flag(1)
    else if low == "false" || value == "0" || low == "no" then Flag(0)
    else Null
  }

  /** The flag the edit form stores for a box, as written: 1 for "true" in
      any case and 0 for everything else, the empty box included. */
  function UpdateFlag(value: string): (c: Cell)
    ensures c == Flag(0) || c == Flag(1)
    ensures c == Flag(1) <==> Text.Lower(value) == "true"
  {
    if Text.Lower(value) == "true" then Flag(1) else Flag(0)
  }

  /** The edit form's flag with an empty box leaving the trait unknown, as
      the registration form does. */
  function UpdateFlagCorrected(value: string): (c: Cell)
    ensures value == "" ==> c == Null
    ensures value != "" ==> c == UpdateFlag(value)
  {
    if value == "" then Null else UpdateFlag(value)
  }

  /** A trait as the database holds it. */
  function Stored(v: Option<int>): Cell {
    if v.Some? then Flag(v.value) else Null
  }

  /** What the edit form's combo box shows for a stored trait: "true" for a
      non-zero value, "false" for 0, an empty box for `NULL`. */
  function Prefill(v: Option<int>): (box: string)
    ensures box == "" <==> v.None?
    ensures box in {"", "true", "false"}
  {
    if v.None? then "" else if v.value != 0 then "true" else "false"
  }

  /** As written, saving an edit form whose unknown trait was left untouched
      records the trait as 0 (the NO value of the key's scoring). */
  lemma UpdateLosesUnknown()
    ensures Stored(None) == Null
    ensures UpdateFlag(Prefill(None)) == Flag(0)
  {
  }

  /** With the correction, saving an untouched edit form keeps every 0/1 or
      unknown trait as stored. */
  lemma UpdateCorrectedKeepsTraits(v: Option<int>)
    requires v.None? || v.value == 0 || v.value == 1
    ensures UpdateFlagCorrected(Prefill(v)) == Stored(v)
  {
    if v.Some? && v.value == 1 {
      assert Text.Lower("true") == "true";
    } else if v.Some? {
      assert Text.Lower("false") == "false";
      assert Text.Lower("false") != "true";
    }
  }

  /** The registration form reads the edit form's boxes back as stored. */
  lemma RegisterReadsPrefill(v: Option<int>)
    requires v.None? || v.value == 0 || v.value == 1
    ensures RegisterFlag(Prefill(v)) == Stored(v)
  {
    var box := Prefill(v);
    if v.None? {
      assert Text.Lower(box) == "";
    } else if v.value == 1 {
      assert Text.Lower(box) == "true";
    } else {
      assert Text.Lower(box) == "false";
      assert Text.Lower(box) != "true" && Text.Lower(box) != "sí";
    }
  }

  /** A text box: its stripped value, `NULL` when that is empty. */
  function TextCell(value: string): (c: Cell)
    ensures c == Null <==> value == ""
    ensures c != Null ==> c == Txt(value)
  {
    if value == "" then Null else Txt(value)
  }

  /** Which form is saved: registration (`save_species`), the edit form as
      written (`update_species`), or the edit form with an empty flag box
      leaving the trait unknown. */
  datatype Form = Registration | Edit | EditCorrected

  /** The flag a form stores for a (stripped) box. */
  function FlagOf(form: Form, value: string): (c: Cell)
    ensures form == Edit ==> c == Flag(0) || c == Flag(1)
    ensures form != Edit && value == "" ==> c == Null
    ensures form == Edit && value == "" ==> c == Flag(0)
  {
    match form
    case Registration => RegisterFlag(value)
    case Edit => UpdateFlag(value)
    case EditCorrected => UpdateFlagCorrected(value)
  }

  /** The column values collected from the boxes, each value stripped of
      surrounding whitespace first. */
  function Collect(entries: map<string, string>, form: Form): (data: map<string, Cell>)
    ensures data.Keys == entries.Keys
    ensures forall k | k in entries && k !in BooleanFields :: data[k] == TextCell(Text.Strip(entries[k]))
    ensures forall k | k in entries && k in BooleanFields :: data[k] == FlagOf(form, Text.Strip(entries[k]))
  {
    map k | k in entries ::
      if k in BooleanFields then FlagOf(form, Text.Strip(entries[k]))
      else TextCell(Text.Strip(entries[k]))
  }

  /** The required fields are text boxes. */
  lemma RequiredAreText()
    ensures "name" !in BooleanFields && "genus" !in BooleanFields
  {
  }

  /** The result of pressing save: the values to write, or the first missing
      required field. */
  datatype Outcome = Saved(data: map<string, Cell>) | MissingName | MissingGenus

  /** Whether the collected value of `field` is a non-empty text. */
  predicate Filled(data: map<string, Cell>, field: string) {
    field in data && data[field].Txt?
  }

  /** `save_species` (`Registration`) and `update_species` (`Edit`): the
      scientific name is required, then the genus; a box holding only
      whitespace counts as empty. */
  function Submit(entries: map<string, string>, form: Form): (r: Outcome)
    ensures r == MissingName <==> !("name" in entries && Text.Strip(entries["name"]) != "")
    ensures r == MissingGenus <==>
      "name" in entries && Text.Strip(entries["name"]) != ""
      && !("genus" in entries && Text.Strip(entries["genus"]) != "")
    ensures r.Saved? ==> r.data == Collect(entries, form)
  {
    var data := Collect(entries, form);
    RequiredAreText();
    assert "name" in entries ==> data["name"] == TextCell(Text.Strip(entries["name"]));
    assert "genus" in entries ==> data["genus"] == TextCell(Text.Strip(entries["genus"]));
    if !Filled(data, "name") then MissingName
    else if !Filled(data, "genus") then MissingGenus
    else Saved(data)
  }

  /** As written, saving an edit form whose flag box is empty, as it is
      prefilled for an unknown trait, stores the trait as 0; with the
      correction it stays unknown. */
  lemma EditSavesUnknownAsNo(entries: map<string, string>, k: string)
    requires Submit(entries, Edit).Saved?
    requires k in BooleanFields && k in entries && entries[k] == Prefill(None)
    ensures Submit(entries, Edit).data[k] == Flag(0)
    ensures Submit(entries, EditCorrected).Saved? && Submit(entries, EditCorrected).data[k] == Null
  {
    assert Text.Strip("") == "";
  }

  /** A saved form stores a name and a genus that are non-empty and carry no
      surrounding whitespace, and every trait as 0, 1 or unknown. */
  lemma SavedIsClean(entries: map<string, string>, form: Form)
    requires Submit(entries, form).Saved?
    ensures var d := Submit(entries, form).data;
      d["name"].Txt? && d["name"].s != [] && !Text.IsSpace(d["name"].s[0]) && !Text.IsSpace(d["name"].s[|d["name"].s| - 1])
      && d["genus"].Txt? && d["genus"].s != []
    ensures var d := Submit(entries, form).data;
      forall k | k in d && k in BooleanFields :: d[k] == Flag(0) || d[k] == Flag(1) || d[k] == Null
  {
    var d := Submit(entries, form).data;
    RequiredAreText();
    assert d == Collect(entries, form);
    assert d["name"] == TextCell(Text.Strip(entries["name"]));
    assert d["genus"] == TextCell(Text.Strip(entries["genus"]));
  }
}
