/** The taxonomic-trait selectors of the administrator's species form: the
    four menus are saved as one text, "shape, surface, dactyl, size", and an
    edit form reads that text back into the menus by looking for keywords.
    The widgets, the image and the database write are not modelled. */
module AdminFeatures {
  import opened Wrappers
  import Text

  /** The carapace-shape menu; its first value is the one shown by default. */
  datatype Shape = Ovalado | Subcilindrico | Redondeado

  /** The surface menu. */
  datatype Surface = Liso | Rugoso | Estriado | Granulado

  /** The dactyl (leg) menu. */
  datatype Dactyl = Recto | Falcado | OvaladoDactilo

  /** The maximum-size menu. */
  datatype Size = Pequeno | Mediano | Grande

  /** The four menus of the form. */
  datatype Selection = Selection(shape: Shape, surface: Surface, dactyl: Dactyl, size: Size)

  function ShapeName(s: Shape): string {
    match s
    case Ovalado => "ovalado"
    case Subcilindrico => "subcilindrico"
    case Redondeado => "redondeado"
  }

  function SurfaceName(s: Surface): string {
    match s
    case Liso => "liso"
    case Rugoso => "rugoso"
    case Estriado => "estriado"
    case Granulado => "granulado"
  }

  function DactylName(d: Dactyl): string {
    match d
    case Recto => "recto"
    case Falcado => "falcado"
    case OvaladoDactilo => "ovalado dactilo"
  }

  function SizeName(s: Size): string {
    match s
    case Pequeno => "pequeño"
    case Mediano => "mediano"
    case Grande => "grande"
  }

  /** What a fresh form shows: the first value of every menu. */
  const Defaults := Selection(Ovalado, Liso, Recto, Pequeno)

  /** The saved trait text: the four menu values joined by ", ". */
  function Format(sel: Selection): string {
    ShapeName(sel.shape) + ", " + SurfaceName(sel.surface) + ", " + DactylName(sel.dactyl) + ", " + SizeName(sel.size)
  }

  // ---------------------------------------------------------------------------
  // Reading a saved text back

  /** Shape: "subcilindrico" wins over "redondeado"; neither gives the default. */
  function ParseShape(text: string): Shape {
    if Text.Contains(text, "subcilindrico") then Subcilindrico
    else if Text.Contains(text, "redondeado") then Redondeado
    else Ovalado
  }

  /** Surface: "rugoso", then "estriado", then "granulado", else smooth. */
  function ParseSurface(text: string): Surface {
    if Text.Contains(text, "rugoso") then Rugoso
    else if Text.Contains(text, "estriado") then Estriado
    else if Text.Contains(text, "granulado") then Granulado
    else Liso
  }

  /** Dactyl: "falcado", then "ovalado dactilo", else straight. */
  function ParseDactyl(text: string): Dactyl {
    if Text.Contains(text, "falcado") then Falcado
    else if Text.Contains(text, "ovalado dactilo") then OvaladoDactilo
    else Recto
  }

  /** Size: "grande", then "mediano", else small. */
  function ParseSize(text: string): Size {
    if Text.Contains(text, "grande") then Grande
    else if Text.Contains(text, "mediano") then Mediano
    else Pequeno
  }

  function Parse(text: string): Selection {
    Selection(ParseShape(text), ParseSurface(text), ParseDactyl(text), ParseSize(text))
  }

  /** The menus of the edit form for a stored trait text (`None` for `NULL`):
      a missing or empty text leaves the defaults, anything else is lowered
      and searched for keywords. */
  function Prefill(stored: Option<string>): (sel: Selection)
    ensures stored.None? || stored.value == "" ==> sel == Defaults
    ensures stored.Some? && stored.value != "" ==> sel == Parse(Text.Lower(stored.value))
  {
    if stored.None? || stored.value == "" then Defaults else Parse(Text.Lower(stored.value))
  }

  /** The guard on an empty text changes nothing: a text without keywords
      reads as the defaults anyway. */
  lemma PrefillIsParse(stored: Option<string>)
    ensures Prefill(stored) == Parse(Text.Lower(if stored.Some? then stored.value else ""))
  {
    assert Text.Lower("") == "";
    assert !Text.Contains("", "subcilindrico") && !Text.Contains("", "redondeado");
    assert !Text.Contains("", "rugoso") && !Text.Contains("", "estriado") && !Text.Contains("", "granulado");
    assert !Text.Contains("", "falcado") && !Text.Contains("", "ovalado dactilo");
    assert !Text.Contains("", "grande") && !Text.Contains("", "mediano");
  }

  // ---------------------------------------------------------------------------
  // Saving

  /** Pressing save: the genus and species boxes must not be empty (they are
      not stripped); the result is the trait text to store. */
  function Save(genus: string, species: string, sel: Selection): (r: Option<string>)
    ensures r.Some? <==> genus != "" && species != ""
    ensures r.Some? ==> r.value != "" && Prefill(r) == sel
  {
    if genus == "" || species == "" then None
    else
      RoundTrip(sel);
      Some(Format(sel))
  }

  // ---------------------------------------------------------------------------
  // The round trip

  /** Reading a saved text back restores all four menus. */
  lemma RoundTrip(sel: Selection)
    ensures Format(sel) != ""
    ensures Prefill(Some(Format(sel))) == sel
  {
    assert |Format(sel)| > 0;
    LowerFormat(sel);
    ShapeRoundTrip(sel);
    SurfaceRoundTrip(sel);
    DactylRoundTrip(sel);
    SizeRoundTrip(sel);
  }

  /** The shape menu is read back from the saved text. */
  lemma ShapeRoundTrip(sel: Selection)
    ensures ParseShape(Format(sel)) == sel.shape
  {
    ShapeMentions(sel.shape);
    SurfaceMentions(sel.surface);
    DactylMentions(sel.dactyl);
    SizeMentions(sel.size);
    FormatMentions(sel, "subcilindrico");
    FormatMentions(sel, "redondeado");
  }

  /** The surface menu is read back from the saved text. */
  lemma SurfaceRoundTrip(sel: Selection)
    ensures ParseSurface(Format(sel)) == sel.surface
  {
    ShapeMentions(sel.shape);
    SurfaceMentions(sel.surface);
    DactylMentions(sel.dactyl);
    SizeMentions(sel.size);
    FormatMentions(sel, "rugoso");
    FormatMentions(sel, "estriado");
    FormatMentions(sel, "granulado");
  }

  /** The dactyl menu is read back from the saved text. */
  lemma DactylRoundTrip(sel: Selection)
    ensures ParseDactyl(Format(sel)) == sel.dactyl
  {
    ShapeMentions(sel.shape);
    SurfaceMentions(sel.surface);
    DactylMentions(sel.dactyl);
    SizeMentions(sel.size);
    FormatMentions(sel, "falcado");
    FormatMentions(sel, "ovalado dactilo");
  }

  /** The size menu is read back from the saved text. */
  lemma SizeRoundTrip(sel: Selection)
    ensures ParseSize(Format(sel)) == sel.size
  {
    ShapeMentions(sel.shape);
    SurfaceMentions(sel.surface);
    DactylMentions(sel.dactyl);
    SizeMentions(sel.size);
    FormatMentions(sel, "grande");
    FormatMentions(sel, "mediano");
  }

  /** Different selections are saved as different texts. */
  lemma FormatInjective(a: Selection, b: Selection)
    requires Format(a) == Format(b)
    ensures a == b
  {
    RoundTrip(a);
    RoundTrip(b);
  }

  /** The saved text is already in lower case. */
  lemma LowerFormat(sel: Selection)
    ensures Text.Lower(Format(sel)) == Format(sel)
  {
    var a, b, c, d := ShapeName(sel.shape), SurfaceName(sel.surface), DactylName(sel.dactyl), SizeName(sel.size);
    assert Text.Lower(a) == a && Text.Lower(b) == b && Text.Lower(c) == c && Text.Lower(d) == d;
    assert Text.Lower(", ") == ", ";
    Text.LowerAppend(a, ", ");
    Text.LowerAppend(a + ", ", b);
    Text.LowerAppend(a + ", " + b, ", ");
    Text.LowerAppend(a + ", " + b + ", ", c);
    Text.LowerAppend(a + ", " + b + ", " + c, ", ");
    Text.LowerAppend(a + ", " + b + ", " + c + ", ", d);
  }

  /** A keyword without a comma that does not start with a space occurs in
      the saved text exactly when it occurs in one of the four values. */
  lemma FormatMentions(sel: Selection, k: string)
    requires |k| > 0 && ',' !in k && k[0] != ' '
    ensures Text.Contains(Format(sel), k) <==>
      Text.Contains(ShapeName(sel.shape), k) || Text.Contains(SurfaceName(sel.surface), k)
      || Text.Contains(DactylName(sel.dactyl), k) || Text.Contains(SizeName(sel.size), k)
  {
    var a, b, c, d := ShapeName(sel.shape), SurfaceName(sel.surface), DactylName(sel.dactyl), SizeName(sel.size);
    Text.ContainsAcrossSeparator(a, ", ", b, k);
    Text.ContainsAcrossSeparator(a + ", " + b, ", ", c, k);
    Text.ContainsAcrossSeparator(a + ", " + b + ", " + c, ", ", d, k);
  }

  /** Each value's name holds its own keyword and no other. */
  lemma ShapeMentions(s: Shape)
    ensures Text.Contains(ShapeName(s), "subcilindrico") <==> s == Subcilindrico
    ensures Text.Contains(ShapeName(s), "redondeado") <==> s == Redondeado
    ensures !Text.Contains(ShapeName(s), "rugoso") && !Text.Contains(ShapeName(s), "estriado")
    ensures !Text.Contains(ShapeName(s), "granulado") && !Text.Contains(ShapeName(s), "falcado")
    ensures !Text.Contains(ShapeName(s), "ovalado dactilo")
    ensures !Text.Contains(ShapeName(s), "grande") && !Text.Contains(ShapeName(s), "mediano")
  {
    match s
    case Ovalado => OvaladoMentions();
    case Subcilindrico => SubcilindricoMentions();
    case Redondeado => RedondeadoMentions();
  }

  lemma SurfaceMentions(s: Surface)
    ensures Text.Contains(SurfaceName(s), "rugoso") <==> s == Rugoso
    ensures Text.Contains(SurfaceName(s), "estriado") <==> s == Estriado
    ensures Text.Contains(SurfaceName(s), "granulado") <==> s == Granulado
    ensures !Text.Contains(SurfaceName(s), "subcilindrico") && !Text.Contains(SurfaceName(s), "redondeado")
    ensures !Text.Contains(SurfaceName(s), "falcado") && !Text.Contains(SurfaceName(s), "ovalado dactilo")
    ensures !Text.Contains(SurfaceName(s), "grande") && !Text.Contains(SurfaceName(s), "mediano")
  {
    match s
    case Liso => LisoMentions();
    case Rugoso => RugosoMentions();
    case Estriado => EstriadoMentions();
    case Granulado => GranuladoMentions();
  }

  lemma DactylMentions(d: Dactyl)
    ensures Text.Contains(DactylName(d), "falcado") <==> d == Falcado
    ensures Text.Contains(DactylName(d), "ovalado dactilo") <==> d == OvaladoDactilo
    ensures !Text.Contains(DactylName(d), "subcilindrico") && !Text.Contains(DactylName(d), "redondeado")
    ensures !Text.Contains(DactylName(d), "rugoso") && !Text.Contains(DactylName(d), "estriado")
    ensures !Text.Contains(DactylName(d), "granulado")
    ensures !Text.Contains(DactylName(d), "grande") && !Text.Contains(DactylName(d), "mediano")
  {
    match d
    case Recto => RectoMentions();
    case Falcado => FalcadoMentions();
    case OvaladoDactilo => OvaladoDactiloMentions();
  }

  lemma SizeMentions(s: Size)
    ensures Text.Contains(SizeName(s), "grande") <==> s == Grande
    ensures Text.Contains(SizeName(s), "mediano") <==> s == Mediano
    ensures !Text.Contains(SizeName(s), "subcilindrico") && !Text.Contains(SizeName(s), "redondeado")
    ensures !Text.Contains(SizeName(s), "rugoso") && !Text.Contains(SizeName(s), "estriado")
    ensures !Text.Contains(SizeName(s), "granulado") && !Text.Contains(SizeName(s), "falcado")
    ensures !Text.Contains(SizeName(s), "ovalado dactilo")
  {
    match s
    case Pequeno => PequenoMentions();
    case Mediano => MedianoMentions();
    case Grande => GrandeMentions();
  }

  // One lemma per menu value: the keywords its name holds.

  lemma OvaladoMentions()
    ensures !Text.Contains("ovalado", "subcilindrico") && !Text.Contains("ovalado", "redondeado") && !Text.Contains("ovalado", "rugoso")
    ensures !Text.Contains("ovalado", "estriado") && !Text.Contains("ovalado", "granulado") && !Text.Contains("ovalado", "falcado")
    ensures !Text.Contains("ovalado", "ovalado dactilo") && !Text.Contains("ovalado", "grande") && !Text.Contains("ovalado", "mediano")
  {
    assert !Text.Contains("ovalado", "rugoso") by { Text.MissingChar("ovalado", "rugoso", 'r'); }
    assert !Text.Contains("ovalado", "falcado") by { Text.MissingChar("ovalado", "falcado", 'f'); }
    assert !Text.Contains("ovalado", "grande") by { Text.MissingChar("ovalado", "grande", 'g'); }
    assert !Text.Contains("ovalado", "mediano") by { Text.MissingChar("ovalado", "mediano", 'm'); }
  }

  lemma SubcilindricoMentions()
    ensures Text.Contains("subcilindrico", "subcilindrico")
    ensures !Text.Contains("subcilindrico", "redondeado") && !Text.Contains("subcilindrico", "rugoso") && !Text.Contains("subcilindrico", "estriado")
    ensures !Text.Contains("subcilindrico", "granulado") && !Text.Contains("subcilindrico", "falcado") && !Text.Contains("subcilindrico", "ovalado dactilo")
    ensures !Text.Contains("subcilindrico", "grande") && !Text.Contains("subcilindrico", "mediano")
  {
    Text.ContainsSelf("subcilindrico");
    SubcilindricoLacks("redondeado", 'e');
    SubcilindricoLacks("rugoso", 'g');
    SubcilindricoLacks("estriado", 'e');
    SubcilindricoLacks("granulado", 'g');
    SubcilindricoLacks("falcado", 'f');
    SubcilindricoLacks("ovalado dactilo", 'v');
    SubcilindricoLacks("grande", 'g');
    SubcilindricoLacks("mediano", 'm');
  }

  /** "subcilindrico" holds none of the letters e, f, g, m and v. */
  lemma SubcilindricoLacks(k: string, c: char)
    requires c in k && c in "efgmv"
    ensures !Text.Contains("subcilindrico", k)
  {
    Text.MissingChar("subcilindrico", k, c);
  }

  lemma RedondeadoMentions()
    ensures Text.Contains("redondeado", "redondeado")
    ensures !Text.Contains("redondeado", "subcilindrico") && !Text.Contains("redondeado", "rugoso") && !Text.Contains("redondeado", "estriado")
    ensures !Text.Contains("redondeado", "granulado") && !Text.Contains("redondeado", "falcado") && !Text.Contains("redondeado", "ovalado dactilo")
    ensures !Text.Contains("redondeado", "grande") && !Text.Contains("redondeado", "mediano")
  {
    Text.ContainsSelf("redondeado");
    assert !Text.Contains("redondeado", "rugoso") by { Text.MissingChar("redondeado", "rugoso", 'u'); }
    assert !Text.Contains("redondeado", "estriado") by { Text.MissingChar("redondeado", "estriado", 's'); }
    assert !Text.Contains("redondeado", "granulado") by { Text.MissingChar("redondeado", "granulado", 'g'); }
    assert !Text.Contains("redondeado", "falcado") by { Text.MissingChar("redondeado", "falcado", 'f'); }
    assert !Text.Contains("redondeado", "grande") by { Text.MissingChar("redondeado", "grande", 'g'); }
    assert !Text.Contains("redondeado", "mediano") by { Text.MissingChar("redondeado", "mediano", 'm'); }
  }

  lemma LisoMentions()
    ensures !Text.Contains("liso", "subcilindrico") && !Text.Contains("liso", "redondeado") && !Text.Contains("liso", "rugoso")
    ensures !Text.Contains("liso", "estriado") && !Text.Contains("liso", "granulado") && !Text.Contains("liso", "falcado")
    ensures !Text.Contains("liso", "ovalado dactilo") && !Text.Contains("liso", "grande") && !Text.Contains("liso", "mediano")
  {
  }

  lemma RugosoMentions()
    ensures Text.Contains("rugoso", "rugoso")
    ensures !Text.Contains("rugoso", "subcilindrico") && !Text.Contains("rugoso", "redondeado") && !Text.Contains("rugoso", "estriado")
    ensures !Text.Contains("rugoso", "granulado") && !Text.Contains("rugoso", "falcado") && !Text.Contains("rugoso", "ovalado dactilo")
    ensures !Text.Contains("rugoso", "grande") && !Text.Contains("rugoso", "mediano")
  {
    Text.ContainsSelf("rugoso");
    assert !Text.Contains("rugoso", "grande") by { Text.MissingChar("rugoso", "grande", 'a'); }
  }

  lemma EstriadoMentions()
    ensures Text.Contains("estriado", "estriado")
    ensures !Text.Contains("estriado", "subcilindrico") && !Text.Contains("estriado", "redondeado") && !Text.Contains("estriado", "rugoso")
    ensures !Text.Contains("estriado", "granulado") && !Text.Contains("estriado", "falcado") && !Text.Contains("estriado", "ovalado dactilo")
    ensures !Text.Contains("estriado", "grande") && !Text.Contains("estriado", "mediano")
  {
    assert !Text.Contains("estriado", "rugoso") by { Text.MissingChar("estriado", "rugoso", 'u'); }
    Text.ContainsSelf("estriado");
    assert !Text.Contains("estriado", "falcado") by { Text.MissingChar("estriado", "falcado", 'f'); }
    assert !Text.Contains("estriado", "grande") by { Text.MissingChar("estriado", "grande", 'g'); }
    assert !Text.Contains("estriado", "mediano") by { Text.MissingChar("estriado", "mediano", 'm'); }
  }

  lemma GranuladoMentions()
    ensures Text.Contains("granulado", "granulado")
    ensures !Text.Contains("granulado", "subcilindrico") && !Text.Contains("granulado", "redondeado") && !Text.Contains("granulado", "rugoso")
    ensures !Text.Contains("granulado", "estriado") && !Text.Contains("granulado", "falcado") && !Text.Contains("granulado", "ovalado dactilo")
    ensures !Text.Contains("granulado", "grande") && !Text.Contains("granulado", "mediano")
  {
    assert !Text.Contains("granulado", "rugoso") by { Text.MissingChar("granulado", "rugoso", 's'); }
    assert !Text.Contains("granulado", "estriado") by { Text.MissingChar("granulado", "estriado", 'e'); }
    Text.ContainsSelf("granulado");
    assert !Text.Contains("granulado", "falcado") by { Text.MissingChar("granulado", "falcado", 'f'); }
    assert !Text.Contains("granulado", "grande") by { Text.MissingChar("granulado", "grande", 'e'); }
    assert !Text.Contains("granulado", "mediano") by { Text.MissingChar("granulado", "mediano", 'm'); }
  }

  lemma RectoMentions()
    ensures !Text.Contains("recto", "subcilindrico") && !Text.Contains("recto", "redondeado") && !Text.Contains("recto", "rugoso")
    ensures !Text.Contains("recto", "estriado") && !Text.Contains("recto", "granulado") && !Text.Contains("recto", "falcado")
    ensures !Text.Contains("recto", "ovalado dactilo") && !Text.Contains("recto", "grande") && !Text.Contains("recto", "mediano")
  {
  }

  lemma FalcadoMentions()
    ensures Text.Contains("falcado", "falcado")
    ensures !Text.Contains("falcado", "subcilindrico") && !Text.Contains("falcado", "redondeado") && !Text.Contains("falcado", "rugoso")
    ensures !Text.Contains("falcado", "estriado") && !Text.Contains("falcado", "granulado") && !Text.Contains("falcado", "ovalado dactilo")
    ensures !Text.Contains("falcado", "grande") && !Text.Contains("falcado", "mediano")
  {
    assert !Text.Contains("falcado", "rugoso") by { Text.MissingChar("falcado", "rugoso", 'r'); }
    Text.ContainsSelf("falcado");
    assert !Text.Contains("falcado", "grande") by { Text.MissingChar("falcado", "grande", 'g'); }
    assert !Text.Contains("falcado", "mediano") by { Text.MissingChar("falcado", "mediano", 'm'); }
  }

  lemma OvaladoDactiloMentions()
    ensures Text.Contains("ovalado dactilo", "ovalado dactilo")
    ensures !Text.Contains("ovalado dactilo", "subcilindrico") && !Text.Contains("ovalado dactilo", "redondeado") && !Text.Contains("ovalado dactilo", "rugoso")
    ensures !Text.Contains("ovalado dactilo", "estriado") && !Text.Contains("ovalado dactilo", "granulado") && !Text.Contains("ovalado dactilo", "falcado")
    ensures !Text.Contains("ovalado dactilo", "grande") && !Text.Contains("ovalado dactilo", "mediano")
  {
    Text.ContainsSelf("ovalado dactilo");
    OvaladoDactiloLacks("subcilindrico", 's');
    OvaladoDactiloLacks("redondeado", 'r');
    OvaladoDactiloLacks("rugoso", 'r');
    OvaladoDactiloLacks("estriado", 'e');
    OvaladoDactiloLacks("granulado", 'g');
    OvaladoDactiloLacks("falcado", 'f');
    OvaladoDactiloLacks("grande", 'g');
    OvaladoDactiloLacks("mediano", 'm');
  }

  /** "ovalado dactilo" holds none of the letters e, f, g, m, r and s. */
  lemma OvaladoDactiloLacks(k: string, c: char)
    requires c in k && c in "efgmrs"
    ensures !Text.Contains("ovalado dactilo", k)
  {
    Text.MissingChar("ovalado dactilo", k, c);
  }

  lemma PequenoMentions()
    ensures !Text.Contains("pequeño", "subcilindrico") && !Text.Contains("pequeño", "redondeado") && !Text.Contains("pequeño", "rugoso")
    ensures !Text.Contains("pequeño", "estriado") && !Text.Contains("pequeño", "granulado") && !Text.Contains("pequeño", "falcado")
    ensures !Text.Contains("pequeño", "ovalado dactilo") && !Text.Contains("pequeño", "grande") && !Text.Contains("pequeño", "mediano")
  {
    assert !Text.Contains("pequeño", "rugoso") by { Text.MissingChar("pequeño", "rugoso", 'r'); }
    assert !Text.Contains("pequeño", "falcado") by { Text.MissingChar("pequeño", "falcado", 'f'); }
    assert !Text.Contains("pequeño", "grande") by { Text.MissingChar("pequeño", "grande", 'g'); }
    assert !Text.Contains("pequeño", "mediano") by { Text.MissingChar("pequeño", "mediano", 'm'); }
  }

  lemma MedianoMentions()
    ensures Text.Contains("mediano", "mediano")
    ensures !Text.Contains("mediano", "subcilindrico") && !Text.Contains("mediano", "redondeado") && !Text.Contains("mediano", "rugoso")
    ensures !Text.Contains("mediano", "estriado") && !Text.Contains("mediano", "granulado") && !Text.Contains("mediano", "falcado")
    ensures !Text.Contains("mediano", "ovalado dactilo") && !Text.Contains("mediano", "grande")
  {
    assert !Text.Contains("mediano", "rugoso") by { Text.MissingChar("mediano", "rugoso", 'r'); }
    assert !Text.Contains("mediano", "falcado") by { Text.MissingChar("mediano", "falcado", 'f'); }
    assert !Text.Contains("mediano", "grande") by { Text.MissingChar("mediano", "grande", 'g'); }
    Text.ContainsSelf("mediano");
  }

  lemma GrandeMentions()
    ensures Text.Contains("grande", "grande")
    ensures !Text.Contains("grande", "subcilindrico") && !Text.Contains("grande", "redondeado") && !Text.Contains("grande", "rugoso")
    ensures !Text.Contains("grande", "estriado") && !Text.Contains("grande", "granulado") && !Text.Contains("grande", "falcado")
    ensures !Text.Contains("grande", "ovalado dactilo") && !Text.Contains("grande", "mediano")
  {
    assert !Text.Contains("grande", "rugoso") by { Text.MissingChar("grande", "rugoso", 'u'); }
    Text.ContainsSelf("grande");
  }
}
