/** The species catalogue of the web identifier: the server's catalogue
    object becomes a list of records, a successful delete drops a record by
    id, and the list page filters the records by a search term. Fetching,
    dates and rendering are not modelled. */
module Catalogue {
  import opened Wrappers
  import Text
  import opened Sequences

  // ---------------------------------------------------------------------------
  // Records

  /** One catalogue entry as the server sends it; absent fields are `None`. */
  datatype Info = Info(
    nombre: Option<string>,
    nombreCientifico: Option<string>,
    habitat: Option<string>,
    tamano: Option<string>,
    descripcion: Option<string>,
    imagen: Option<string>,
    preguntas: Option<seq<int>>)

  /** A species record of the page. */
  datatype Species = Species(
    id: string,
    nombre: string,
    nombreCientifico: string,
    habitat: string,
    tamano: string,
    descripcion: string,
    imagen: string,
    preguntas: seq<int>)

  /** JavaScript's `x || fallback` on an optional string: an absent or empty
      value falls back. */
  function Or(x: Option<string>, fallback: string): (r: string)
    ensures x.Some? && x.value != "" ==> r == x.value
    ensures x.None? || x.value == "" ==> r == fallback
  {
    if x.Some? && x.value != "" then x.value else fallback
  }

  /** The name shown for an entry without one: its key with every "_"
      turned into a space. */
  function KeyName(key: string): (name: string)
    ensures |name| == |key|
    ensures '_' !in name
    ensures forall i | 0 <= i < |key| && key[i] != '_' :: name[i] == key[i]
  {
    Text.ReplaceChar(key, '_', ' ')
  }

  const DefaultImage := "src/assets/images/crab/default.jpg"

  const RoughCarapaceImage := "src/assets/images/crab/caparazon_rugoso.jpg"

  /** The page's reference-image table: nine species with a rough carapace
      share one picture. */
  const ReferenceImages: map<string, string> := map[
    "Neopisosoma_neglectum" := RoughCarapaceImage,
    "Neopisosoma_angustifrons" := RoughCarapaceImage,
    "Neopisosoma_orientale" := RoughCarapaceImage,
    "Clastotoechus_nodosus" := RoughCarapaceImage,
    "Pachycheles_serratus" := RoughCarapaceImage,
    "Pachycheles_monilifer" := RoughCarapaceImage,
    "Pachycheles_riseii" := RoughCarapaceImage,
    "Pachycheles_ackleianus" := RoughCarapaceImage,
    "Petrolisthes_tridentatus" := RoughCarapaceImage]

  /** The record built for the catalogue entry `key`; `refs` is the
      reference-image table keyed by entry. */
  function ToSpecies(key: string, info: Info, refs: map<string, string>): (s: Species)
    ensures s.id == key
    ensures s.nombre == Or(info.nombre, KeyName(key))
    ensures s.nombreCientifico == Or(info.nombreCientifico, KeyName(key))
    ensures s.habitat == Or(info.habitat, "No especificado") && s.tamano == Or(info.tamano, "N/A")
    ensures s.imagen == Or(if key in refs then Some(refs[key]) else None, Or(info.imagen, DefaultImage))
  {
    var imagen := Or(if key in refs then Some(refs[key]) else None, Or(info.imagen, DefaultImage));
    Species(
      key,
      Or(info.nombre, KeyName(key)),
      Or(info.nombreCientifico, KeyName(key)),
      Or(info.habitat, "No especificado"),
      Or(info.tamano, "N/A"),
      Or(info.descripcion, ""),
      imagen,
      if info.preguntas.Some? then info.preguntas.value else [])
  }

  /** Image precedence: a non-empty reference image wins, then the entry's
      own image, then the default; the image is never empty. */
  lemma ImagePrecedence(key: string, info: Info, refs: map<string, string>)
    ensures key in refs && refs[key] != "" ==> ToSpecies(key, info, refs).imagen == refs[key]
    ensures (key !in refs || refs[key] == "") && info.imagen.Some? && info.imagen.value != ""
      ==> ToSpecies(key, info, refs).imagen == info.imagen.value
    ensures (key !in refs || refs[key] == "") && (info.imagen.None? || info.imagen.value == "")
      ==> ToSpecies(key, info, refs).imagen == DefaultImage
    ensures ToSpecies(key, info, refs).imagen != ""
  {
  }

  /** The catalogue object's entries, in order, become records one to one. */
  function Load(entries: seq<(string, Info)>, refs: map<string, string>): (ss: seq<Species>)
    ensures |ss| == |entries|
    ensures forall i | 0 <= i < |entries| :: ss[i] == ToSpecies(entries[i].0, entries[i].1, refs)
  {
    seq(|entries|, i requires 0 <= i < |entries| => ToSpecies(entries[i].0, entries[i].1, refs))
  }

  /** Loading keeps the keys as ids, in order. */
  lemma LoadKeepsKeys(entries: seq<(string, Info)>, refs: map<string, string>)
    ensures forall i | 0 <= i < |entries| :: Load(entries, refs)[i].id == entries[i].0
    ensures forall i | 0 <= i < |entries| :: '_' !in Load(entries, refs)[i].nombre || entries[i].1.nombre.Some?
  {
    forall i | 0 <= i < |entries| ensures '_' !in Load(entries, refs)[i].nombre || entries[i].1.nombre.Some? {
      var s := Load(entries, refs)[i];
      assert s.nombre == Or(entries[i].1.nombre, KeyName(entries[i].0));
    }
  }

  // ---------------------------------------------------------------------------
  // Delete

  /** After a delete request: when the server accepts it, the records with
      that id go; otherwise nothing changes. */
  function Delete(species: seq<Species>, id: string, ok: bool): (r: seq<Species>)
    ensures !ok ==> r == species
    ensures ok ==> Sublist(r, species)
    ensures ok ==> forall s :: s in r <==> s in species && s.id != id
  {
    if ok then Keep(species, (s: Species) => s.id != id) else species
  }

  /** Deleting an id that no record has changes nothing. */
  lemma DeleteAbsent(species: seq<Species>, id: string, ok: bool)
    requires forall i | 0 <= i < |species| :: species[i].id != id
    ensures Delete(species, id, ok) == species
  {
    if ok {
      KeepAll(species, (s: Species) => s.id != id);
    }
  }

  // ---------------------------------------------------------------------------
  // Search

  /** The page's test: the lowered term occurs in the lowered common name,
      scientific name or habitat. */
  predicate Matches(s: Species, term: string) {
    var t := Text.Lower(term);
    Text.Contains(Text.Lower(s.nombre), t)
    || Text.Contains(Text.Lower(s.nombreCientifico), t)
    || Text.Contains(Text.Lower(s.habitat), t)
  }

  /** `filteredSpecies`. */
  function Search(species: seq<Species>, term: string): (r: seq<Species>)
    ensures Sublist(r, species)
    ensures |r| <= |species|
    ensures forall s :: s in r <==> s in species && Matches(s, term)
  {
    Keep(species, (s: Species) => Matches(s, term))
  }

  /** An empty search shows every record. */
  lemma EmptyTermKeepsAll(species: seq<Species>)
    ensures Search(species, "") == species
  {
    forall i | 0 <= i < |species| ensures Matches(species[i], "") {
      Text.ContainsSelf(Text.Lower(species[i].nombre));
    }
    KeepAll(species, (s: Species) => Matches(s, ""));
  }

  /** The search ignores the letter case of the term. */
  lemma SearchIgnoresCase(species: seq<Species>, term: string)
    ensures Search(species, Text.Upper(term)) == Search(species, term)
    ensures Search(species, Text.Lower(term)) == Search(species, term)
  {
    Text.LowerOfUpper(term);
    Text.LowerIdempotent(term);
    KeepAgrees(species, (s: Species) => Matches(s, Text.Upper(term)), (s: Species) => Matches(s, term));
    KeepAgrees(species, (s: Species) => Matches(s, Text.Lower(term)), (s: Species) => Matches(s, term));
  }

  /** The header counts every record, the filter line counts the shown ones,
      and an empty result with an empty term means the catalogue is empty. */
  lemma Counts(species: seq<Species>, term: string)
    ensures |Search(species, term)| <= |species|
    ensures term == "" && Search(species, term) == [] ==> species == []
  {
    if term == "" {
      EmptyTermKeepsAll(species);
    }
  }
}
