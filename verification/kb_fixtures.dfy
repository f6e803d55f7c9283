/** The two static Hippoidea knowledge bases (`src/data/base_de_conocimiento.py`
    and `src/base_de_conocimiento.py`): one key of five questions that
    separates seven sand crabs of the Caribbean, written twice with different
    notes and image folders. Both are built here from one skeleton, so that
    their questions, option labels and results are shared by construction. */
module KbFixtures {
  import opened Wrappers
  import opened KbTree

  // The questions, in depth-first order.
  const Telson := "Comencemos por la parte posterior: ¿Qué proporción guarda el telson (la pieza final de la cola) respecto al caparazón?"
  const Flagelo := "Ahora observa la parte frontal: ¿Cómo es la longitud del flagelo antenal comparado con las anténulas?"
  const DactiloEmerita := "Examine con cuidado la punta (dáctilo) de la primera pata o pereiópodo:"
  const Caparazon := "Mira el borde delantero del caparazón: ¿Presenta espinas que lo hacen lucir aserrado?"
  const CuartaPata := "Revisemos la cuarta pata: ¿Cómo describirías la curvatura o depresión en su margen posterior?"
  const Ojos := "¿Qué forma predominante notas en los pedúnculos oculares (los ojos)?"

  // The option labels.
  const Largo := "B - Largo (Al menos la mitad del caparazón)"
  const Corto := "A - Corto (Mucho menos de la mitad del caparazón)"
  const MasCorto := "A - Es más corto que las anténulas"
  const MasLargo := "B - Es mucho más largo que las anténulas"
  const Redondeada := "A - Punta redondeada"
  const Aguda := "B - Punta aguda"
  const Aserrado := "A - Sí, el margen es aserrado"
  const Liso := "B - No, el margen es liso (no aserrado)"
  const Brusca := "A - Es una caída o depresión brusca"
  const Suave := "B - Es una caída suave o gradual"
  const Subovalada := "A - Tienen forma subovalada"
  const Subrectangular := "B - Tienen forma subrectangular (más cuadraditos)"

  // The seven results.
  const HippaTestudinaria := "Hippa testudinaria"
  const EmeritaBrasiliensis := "Emerita brasiliensis"
  const EmeritaPortoricensis := "Emerita portoricensis"
  const AlbuneaCatherinae := "Albunea catherinae"
  const AlbuneaParetii := "Albunea paretii"
  const LepidopaVenusta := "Lepidopa venusta"
  const LepidopaRichmondi := "Lepidopa richmondi"

  // The image files, inside the image folder.
  const TelsonImage := "telson.png"
  const FlageloImage := "flagelo.png"
  const HippaImage := "hippa_testudinaria.jpeg"
  const EmeritaImage := "dactilo_emerita.png"
  const BrasiliensisImage := "emerita_brasiliensis.jpg"
  const PortoricensisImage := "emerita_portoricensis.jpg"
  const AlbuneidaeImage := "caparazon_albuneidae.png"
  const AlbuneaImage := "dactilo_albunea.png"
  const CatherinaeImage := "Albunea_catherinae.jpg"
  const ParetiiImage := "Albunea_paretii.jpg"
  const LepidopaImage := "ojos_lepidopa.png"
  const VenustaImage := "Ledidopa_venusta.jpeg"
  const RichmondiImage := "ledidopa_richmondi.jpg"

  /** The note shown on arriving at each node other than the root. */
  datatype Notes = Notes(
    hippidae: string, hippa: string, emerita: string, brasiliensis: string, portoricensis: string,
    albuneidae: string, albunea: string, catherinae: string, paretii: string,
    lepidopa: string, venusta: string, richmondi: string)

  /** The notes of `src/data/base_de_conocimiento.py`. */
  const DataNotes := Notes(
    "Esta proporción es característica de la familia Hippidae.",
    "Has identificado al género Hippa. En el Caribe, este linaje cuenta con una única especie: Hippa testudinaria. Se distingue por tener un caparazón altamente convexo y liso, con estrías transversales finas. Sus anténulas son notablemente largas en comparación con los flagelos de las antenas, los cuales no están especializados para la filtración masiva como en otros géneros. Es un organismo típico de la zona intermareal en playas de arena gruesa y restos de coral, donde se entierra rápidamente ante el retroceso de las olas.",
    "Estas antenas largas y setosas indican que estamos ante el género Emerita.",
    "Emerita brasiliensis se caracteriza por un dáctilo del primer pereiópodo con extremo obtuso o redondeado. Su caparazón presenta líneas transversales aserradas en la región anterior. Es una especie sujeta a debate taxonómico en las costas de Venezuela: tradicionalmente reportada desde Brasil hasta el Caribe, estudios moleculares recientes sugieren que las poblaciones del norte podrían representar una unidad evolutiva distinta. Habita en la zona de resaca, utilizando sus antenas plumosas para filtrar microorganismos del agua en movimiento.",
    "Emerita portoricensis posee un dáctilo del primer pereiópodo claramente agudo o puntiagudo. El margen lateral de su caparazón es menos divergente que en otras especies del género. Es un componente esencial de la fauna de playas arenosas en el Caribe, adaptado a sedimentos de granulometría media a fina. Su ciclo reproductivo está fuertemente ligado a la hidrodinámica de la zona de barrido, y es común encontrarla en densas agregaciones que migran verticalmente con la marea para optimizar la alimentación por filtración.",
    "Este rasgo, junto a dáctilos en forma de hoz, define a la familia Albuneidae.",
    "La presencia de 'sierra' frontal y ojos subtriangulares define al género Albunea.",
    "Albunea catherinae destaca por una muesca o depresión profunda y angular en el margen posterior del dáctilo del cuarto pereiópodo. Posee un caparazón con un surco cervical profundo y espinas anterolaterales bien desarrolladas. Su reporte en la Isla La Tortuga representa un hito biogeográfico, ya que expande su rango conocido desde las costas de EE.UU. y el Golfo de México hasta el sur del Caribe. Es un excavador profundo que prefiere sustratos arenosos estables fuera de la zona de rompiente inmediata.",
    "Albunea paretii se identifica por la curvatura suave y continua del margen posterior del dáctilo en su cuarta pata. Sus pedúnculos oculares son anchos en la base y se estrechan hacia el ápice. Es una de las especies de Albuneidae con mayor distribución batimétrica, pudiendo encontrarse desde aguas someras hasta zonas de plataforma externa a más de 100 metros de profundidad. Su caparazón suele presentar una textura rugosa debida a finas setas que ayudan a estabilizarse en el sedimento.",
    "El margen liso es propio del género Lepidopa.",
    "Lepidopa venusta presenta pedúnculos oculares de bordes redondeados, casi ovalados. El dáctilo del primer pereiópodo tiene un proceso proximal (talón) muy agudo y prominente, lo que la diferencia de su congénere L. luciae. Es una especie menos frecuente en los muestreos que L. richmondi y tiende a preferir sedimentos con una composición mineralógica específica. Como todos los albuneidos, utiliza sus largos flagelos antenales para formar un tubo respiratorio mientras permanece enterrada bajo la arena.",
    "Lepidopa richmondi se caracteriza por pedúnculos oculares casi rectangulares, con el margen anterior casi recto. Es, con diferencia, el miembro de la familia Albuneidae más abundante en las costas venezolanas, habitando principalmente playas de baja energía. Su caparazón es liso, brillante y presenta una armadura de espinas reducida en comparación con Albunea. Es un organismo detritívoro/carroñero que aprovecha la materia orgánica depositada en el fondo arenoso de la zona infralitoral superior.")

  /** The notes of `src/base_de_conocimiento.py`. */
  const SourceNotes := Notes(
    "Esta proporción es característica de la familia Hippidae.",
    "Has identificado al género Hippa. En el Caribe, este género cuenta con una única especie registrada.",
    "Estas antenas largas y setosas indican que estamos ante el género Emerita.",
    "Este rasgo suele identificar a E. brasiliensis, aunque su presencia en Venezuela está bajo debate molecular reciente.",
    "La forma aguda es diagnóstica para esta especie, que suele habitar junto a otras en nuestras costas.",
    "Este rasgo, junto a dáctilos en forma de hoz, define a la familia Albuneidae.",
    "La presencia de 'sierra' frontal y ojos subtriangulares define al género Albunea.",
    "¡Excelente hallazgo! Esta especie es una nueva adición al inventario de Venezuela, reportada en la Isla La Tortuga.",
    "Esta especie es común en el Caribe y puede habitar hasta los 101 m de profundidad.",
    "El margen liso es propio del género Lepidopa.",
    "Esta especie es muy parecida a L. luciae, pero se distingue por el talón agudo en sus patas.",
    "Es la especie de Lepidopa más frecuente y ampliamente distribuida en las costas venezolanas.")

  /** A result node: its note, the species and its picture. */
  function Leaf(nota: string, result: string, image: string): Node {
    Node(map["nota" := nota, "resultado" := result, "imagen" := image], false, [])
  }

  /** A question node with its two options, in order. */
  function Ask(question: string, image: string, a: Entry, b: Entry): Node {
    Node(map["pregunta" := question, "imagen" := image], true, [a, b])
  }

  /** A node with the note shown on arriving at it. */
  function Noted(nota: string, n: Node): Node {
    n.(text := n.text["nota" := nota])
  }

  /** The Emerita question, below the long-flagellum option. */
  function EmeritaNode(dir: string, notes: Notes): Node {
    Noted(notes.emerita, Ask(DactiloEmerita, dir + EmeritaImage,
      Entry(Redondeada, Leaf(notes.brasiliensis, EmeritaBrasiliensis, dir + BrasiliensisImage)),
      Entry(Aguda, Leaf(notes.portoricensis, EmeritaPortoricensis, dir + PortoricensisImage))))
  }

  /** The Hippidae question, below the long-telson option. */
  function HippidaeNode(dir: string, notes: Notes): Node {
    Noted(notes.hippidae, Ask(Flagelo, dir + FlageloImage,
      Entry(MasCorto, Leaf(notes.hippa, HippaTestudinaria, dir + HippaImage)),
      Entry(MasLargo, EmeritaNode(dir, notes))))
  }

  /** The Albunea question, below the serrated-margin option. */
  function AlbuneaNode(dir: string, notes: Notes): Node {
    Noted(notes.albunea, Ask(CuartaPata, dir + AlbuneaImage,
      Entry(Brusca, Leaf(notes.catherinae, AlbuneaCatherinae, dir + CatherinaeImage)),
      Entry(Suave, Leaf(notes.paretii, AlbuneaParetii, dir + ParetiiImage))))
  }

  /** The Lepidopa question, below the smooth-margin option. */
  function LepidopaNode(dir: string, notes: Notes): Node {
    Noted(notes.lepidopa, Ask(Ojos, dir + LepidopaImage,
      Entry(Subovalada, Leaf(notes.venusta, LepidopaVenusta, dir + VenustaImage)),
      Entry(Subrectangular, Leaf(notes.richmondi, LepidopaRichmondi, dir + RichmondiImage))))
  }

  /** The Albuneidae question, below the short-telson option. */
  function AlbuneidaeNode(dir: string, notes: Notes): Node {
    Noted(notes.albuneidae, Ask(Caparazon, dir + AlbuneidaeImage,
      Entry(Aserrado, AlbuneaNode(dir, notes)),
      Entry(Liso, LepidopaNode(dir, notes))))
  }

  /** The whole key, its pictures under `dir`: the root asks about the
      telson and has no note. */
  function Hippoidea(dir: string, notes: Notes): Node {
    Ask(Telson, dir + TelsonImage,
      Entry(Largo, HippidaeNode(dir, notes)),
      Entry(Corto, AlbuneidaeNode(dir, notes)))
  }

  /** `BASE_DE_CONOCIMIENTO` of `src/data/base_de_conocimiento.py`. */
  const DataKb := Hippoidea("assets/", DataNotes)

  /** `BASE_DE_CONOCIMIENTO` of `src/base_de_conocimiento.py`. */
  const SourceKb := Hippoidea("imagenes/", SourceNotes)

  /** A result node: a "resultado", a note and a picture, and neither a
      question nor options. */
  predicate IsResult(n: Node) {
    "resultado" in n.text && "nota" in n.text && "imagen" in n.text
    && "pregunta" !in n.text && !n.hasOpciones && n.opciones == []
  }

  /** A question node: a "pregunta", a picture and exactly two options
      with distinct labels, and no "resultado". */
  predicate IsQuestion(n: Node) {
    "pregunta" in n.text && "imagen" in n.text && "resultado" !in n.text
    && n.hasOpciones && |n.opciones| == 2 && n.opciones[0].key != n.opciones[1].key
  }

  /** Every node of the tree is a result or a question. */
  predicate WellShaped(n: Node)
    decreases n
  {
    (IsResult(n) || IsQuestion(n)) && forall e | e in n.opciones :: WellShaped(e.node)
  }

  /** Every node below the root carries `key`. */
  predicate Carried(n: Node, key: string)
    decreases n
  {
    forall e | e in n.opciones :: key in e.node.text && Carried(e.node, key)
  }

  /** A question with two well-shaped options is well shaped. */
  lemma AskShaped(question: string, image: string, a: Entry, b: Entry)
    requires a.key != b.key && WellShaped(a.node) && WellShaped(b.node)
    ensures WellShaped(Ask(question, image, a, b))
    ensures forall nota :: WellShaped(Noted(nota, Ask(question, image, a, b)))
  {
    var n := Ask(question, image, a, b);
    assert IsQuestion(n);
    forall nota ensures WellShaped(Noted(nota, n)) {
      assert IsQuestion(Noted(nota, n));
    }
  }

  /** Both knowledge bases, for any notes and picture folder: every node
      is a result (with a note and a picture) or a two-option question. */
  lemma HippoideaShaped(dir: string, notes: Notes)
    ensures WellShaped(Hippoidea(dir, notes))
  {
    var l1 := Leaf(notes.hippa, HippaTestudinaria, dir + HippaImage);
    var l2 := Leaf(notes.brasiliensis, EmeritaBrasiliensis, dir + BrasiliensisImage);
    var l3 := Leaf(notes.portoricensis, EmeritaPortoricensis, dir + PortoricensisImage);
    var l4 := Leaf(notes.catherinae, AlbuneaCatherinae, dir + CatherinaeImage);
    var l5 := Leaf(notes.paretii, AlbuneaParetii, dir + ParetiiImage);
    var l6 := Leaf(notes.venusta, LepidopaVenusta, dir + VenustaImage);
    var l7 := Leaf(notes.richmondi, LepidopaRichmondi, dir + RichmondiImage);
    assert WellShaped(l1) && WellShaped(l2) && WellShaped(l3) && WellShaped(l4);
    assert WellShaped(l5) && WellShaped(l6) && WellShaped(l7);
    AskShaped(DactiloEmerita, dir + EmeritaImage, Entry(Redondeada, l2), Entry(Aguda, l3));
    AskShaped(Flagelo, dir + FlageloImage, Entry(MasCorto, l1), Entry(MasLargo, EmeritaNode(dir, notes)));
    AskShaped(CuartaPata, dir + AlbuneaImage, Entry(Brusca, l4), Entry(Suave, l5));
    AskShaped(Ojos, dir + LepidopaImage, Entry(Subovalada, l6), Entry(Subrectangular, l7));
    AskShaped(Caparazon, dir + AlbuneidaeImage, Entry(Aserrado, AlbuneaNode(dir, notes)), Entry(Liso, LepidopaNode(dir, notes)));
    AskShaped(Telson, dir + TelsonImage, Entry(Largo, HippidaeNode(dir, notes)), Entry(Corto, AlbuneidaeNode(dir, notes)));
  }

  /** A question whose options' nodes carry `key`, all the way down,
      carries it below its root. */
  lemma AskCarries(key: string, question: string, image: string, a: Entry, b: Entry)
    requires key in a.node.text && Carried(a.node, key) && key in b.node.text && Carried(b.node, key)
    ensures Carried(Ask(question, image, a, b), key)
    ensures forall nota :: Carried(Noted(nota, Ask(question, image, a, b)), key)
  {
  }

  /** A result node has nothing below it. */
  lemma LeafCarries(nota: string, result: string, image: string, key: string)
    ensures Carried(Leaf(nota, result, image), key)
  {
  }

  /** Both knowledge bases: the root has a picture and no note, and every
      other node has a note and a picture. */
  lemma HippoideaAnnotated(dir: string, notes: Notes)
    ensures "nota" !in Hippoidea(dir, notes).text && "imagen" in Hippoidea(dir, notes).text
    ensures Carried(Hippoidea(dir, notes), "nota") && Carried(Hippoidea(dir, notes), "imagen")
  {
    forall key | key == "nota" || key == "imagen" ensures Carried(Hippoidea(dir, notes), key) {
      var l1 := Leaf(notes.hippa, HippaTestudinaria, dir + HippaImage);
      var l2 := Leaf(notes.brasiliensis, EmeritaBrasiliensis, dir + BrasiliensisImage);
      var l3 := Leaf(notes.portoricensis, EmeritaPortoricensis, dir + PortoricensisImage);
      var l4 := Leaf(notes.catherinae, AlbuneaCatherinae, dir + CatherinaeImage);
      var l5 := Leaf(notes.paretii, AlbuneaParetii, dir + ParetiiImage);
      var l6 := Leaf(notes.venusta, LepidopaVenusta, dir + VenustaImage);
      var l7 := Leaf(notes.richmondi, LepidopaRichmondi, dir + RichmondiImage);
      LeafCarries(notes.hippa, HippaTestudinaria, dir + HippaImage, key);
      LeafCarries(notes.brasiliensis, EmeritaBrasiliensis, dir + BrasiliensisImage, key);
      LeafCarries(notes.portoricensis, EmeritaPortoricensis, dir + PortoricensisImage, key);
      LeafCarries(notes.catherinae, AlbuneaCatherinae, dir + CatherinaeImage, key);
      LeafCarries(notes.paretii, AlbuneaParetii, dir + ParetiiImage, key);
      LeafCarries(notes.venusta, LepidopaVenusta, dir + VenustaImage, key);
      LeafCarries(notes.richmondi, LepidopaRichmondi, dir + RichmondiImage, key);
      AskCarries(key, DactiloEmerita, dir + EmeritaImage, Entry(Redondeada, l2), Entry(Aguda, l3));
      AskCarries(key, Flagelo, dir + FlageloImage, Entry(MasCorto, l1), Entry(MasLargo, EmeritaNode(dir, notes)));
      AskCarries(key, CuartaPata, dir + AlbuneaImage, Entry(Brusca, l4), Entry(Suave, l5));
      AskCarries(key, Ojos, dir + LepidopaImage, Entry(Subovalada, l6), Entry(Subrectangular, l7));
      AskCarries(key, Caparazon, dir + AlbuneidaeImage, Entry(Aserrado, AlbuneaNode(dir, notes)), Entry(Liso, LepidopaNode(dir, notes)));
      AskCarries(key, Telson, dir + TelsonImage, Entry(Largo, HippidaeNode(dir, notes)), Entry(Corto, AlbuneidaeNode(dir, notes)));
    }
  }

  /** Two trees that differ at most in the values of "nota" and "imagen":
      the same keys, the same other values, the same option labels in the
      same order, and alike option nodes. */
  predicate Alike(a: Node, b: Node)
    decreases a
  {
    a.text.Keys == b.text.Keys
    && (forall k | k in a.text && k != "nota" && k != "imagen" :: k in b.text && a.text[k] == b.text[k])
    && a.hasOpciones == b.hasOpciones && |a.opciones| == |b.opciones|
    && forall i | 0 <= i < |a.opciones| ::
         a.opciones[i].key == b.opciones[i].key && Alike(a.opciones[i].node, b.opciones[i].node)
  }

  /** Results with the same species are alike. */
  lemma LeafAlike(n1: string, n2: string, result: string, i1: string, i2: string)
    ensures Alike(Leaf(n1, result, i1), Leaf(n2, result, i2))
  {
  }

  /** Questions with the same text and alike options are alike, with or
      without notes. */
  lemma AskAlike(question: string, i1: string, i2: string, a1: Entry, a2: Entry, b1: Entry, b2: Entry)
    requires a1.key == a2.key && Alike(a1.node, a2.node) && b1.key == b2.key && Alike(b1.node, b2.node)
    ensures Alike(Ask(question, i1, a1, b1), Ask(question, i2, a2, b2))
    ensures forall x, y :: Alike(Noted(x, Ask(question, i1, a1, b1)), Noted(y, Ask(question, i2, a2, b2)))
  {
    var p := Ask(question, i1, a1, b1);
    var q := Ask(question, i2, a2, b2);
    assert p.opciones[0] == a1 && p.opciones[1] == b1;
    assert q.opciones[0] == a2 && q.opciones[1] == b2;
    forall x, y ensures Alike(Noted(x, p), Noted(y, q)) {
      assert Noted(x, p).text.Keys == Noted(y, q).text.Keys;
    }
  }

  /** Whatever the notes and picture folders, the key is the same: the two
      knowledge bases differ only in their notes and picture paths. */
  lemma HippoideaAlike(d1: string, n1: Notes, d2: string, n2: Notes)
    ensures Alike(Hippoidea(d1, n1), Hippoidea(d2, n2))
  {
    LeafAlike(n1.hippa, n2.hippa, HippaTestudinaria, d1 + HippaImage, d2 + HippaImage);
    LeafAlike(n1.brasiliensis, n2.brasiliensis, EmeritaBrasiliensis, d1 + BrasiliensisImage, d2 + BrasiliensisImage);
    LeafAlike(n1.portoricensis, n2.portoricensis, EmeritaPortoricensis, d1 + PortoricensisImage, d2 + PortoricensisImage);
    LeafAlike(n1.catherinae, n2.catherinae, AlbuneaCatherinae, d1 + CatherinaeImage, d2 + CatherinaeImage);
    LeafAlike(n1.paretii, n2.paretii, AlbuneaParetii, d1 + ParetiiImage, d2 + ParetiiImage);
    LeafAlike(n1.venusta, n2.venusta, LepidopaVenusta, d1 + VenustaImage, d2 + VenustaImage);
    LeafAlike(n1.richmondi, n2.richmondi, LepidopaRichmondi, d1 + RichmondiImage, d2 + RichmondiImage);
    AskAlike(DactiloEmerita, d1 + EmeritaImage, d2 + EmeritaImage,
      Entry(Redondeada, Leaf(n1.brasiliensis, EmeritaBrasiliensis, d1 + BrasiliensisImage)),
      Entry(Redondeada, Leaf(n2.brasiliensis, EmeritaBrasiliensis, d2 + BrasiliensisImage)),
      Entry(Aguda, Leaf(n1.portoricensis, EmeritaPortoricensis, d1 + PortoricensisImage)),
      Entry(Aguda, Leaf(n2.portoricensis, EmeritaPortoricensis, d2 + PortoricensisImage)));
    AskAlike(Flagelo, d1 + FlageloImage, d2 + FlageloImage,
      Entry(MasCorto, Leaf(n1.hippa, HippaTestudinaria, d1 + HippaImage)),
      Entry(MasCorto, Leaf(n2.hippa, HippaTestudinaria, d2 + HippaImage)),
      Entry(MasLargo, EmeritaNode(d1, n1)), Entry(MasLargo, EmeritaNode(d2, n2)));
    AskAlike(CuartaPata, d1 + AlbuneaImage, d2 + AlbuneaImage,
      Entry(Brusca, Leaf(n1.catherinae, AlbuneaCatherinae, d1 + CatherinaeImage)),
      Entry(Brusca, Leaf(n2.catherinae, AlbuneaCatherinae, d2 + CatherinaeImage)),
      Entry(Suave, Leaf(n1.paretii, AlbuneaParetii, d1 + ParetiiImage)),
      Entry(Suave, Leaf(n2.paretii, AlbuneaParetii, d2 + ParetiiImage)));
    AskAlike(Ojos, d1 + LepidopaImage, d2 + LepidopaImage,
      Entry(Subovalada, Leaf(n1.venusta, LepidopaVenusta, d1 + VenustaImage)),
      Entry(Subovalada, Leaf(n2.venusta, LepidopaVenusta, d2 + VenustaImage)),
      Entry(Subrectangular, Leaf(n1.richmondi, LepidopaRichmondi, d1 + RichmondiImage)),
      Entry(Subrectangular, Leaf(n2.richmondi, LepidopaRichmondi, d2 + RichmondiImage)));
    AskAlike(Caparazon, d1 + AlbuneidaeImage, d2 + AlbuneidaeImage,
      Entry(Aserrado, AlbuneaNode(d1, n1)), Entry(Aserrado, AlbuneaNode(d2, n2)),
      Entry(Liso, LepidopaNode(d1, n1)), Entry(Liso, LepidopaNode(d2, n2)));
    AskAlike(Telson, d1 + TelsonImage, d2 + TelsonImage,
      Entry(Largo, HippidaeNode(d1, n1)), Entry(Largo, HippidaeNode(d2, n2)),
      Entry(Corto, AlbuneidaeNode(d1, n1)), Entry(Corto, AlbuneidaeNode(d2, n2)));
  }

  /** A question node, with or without a note, offers its two options in
      order and carries no result. */
  lemma NotedAsk(nota: string, question: string, image: string, a: Entry, b: Entry)
    ensures var n := Noted(nota, Ask(question, image, a, b));
      n.hasOpciones && "resultado" !in n.text && n.opciones == [a, b]
  {
    var n := Noted(nota, Ask(question, image, a, b));
    assert n.text.Keys == {"pregunta", "imagen", "nota"};
  }

  /** The outcomes of two options that lead to results. */
  lemma OutcomesOfLeaves(k1: string, l1: Node, k2: string, l2: Node)
    requires IsResult(l1) && IsResult(l2)
    ensures Outcomes([Entry(k1, l1), Entry(k2, l2)]) == [([k1], l1.text["resultado"]), ([k2], l2.text["resultado"])]
  {
    OutcomesOfPair(Entry(k1, l1), Entry(k2, l2));
    assert Nested(Entry(k1, l1)) == [] && Nested(Entry(k2, l2)) == [];
  }

  /** The outcomes of two options that lead to questions. */
  lemma OutcomesOfQuestions(k1: string, q1: Node, k2: string, q2: Node)
    requires q1.hasOpciones && q2.hasOpciones && "resultado" !in q1.text && "resultado" !in q2.text
    ensures Outcomes([Entry(k1, q1), Entry(k2, q2)]) == Prefixed(k1, Outcomes(q1.opciones)) + Prefixed(k2, Outcomes(q2.opciones))
  {
    var e1, e2 := Entry(k1, q1), Entry(k2, q2);
    OutcomesOfPair(e1, e2);
    var x, y := Nested(e1), Nested(e2);
    assert Own(e1) == [] && Own(e2) == [];
    assert Own(e1) + x == x;
    assert Own(e2) + y == y;
  }

  /** Both knowledge bases: the seven species, each at the end of exactly
      one path of option labels, Hippa testudinaria two answers deep and
      the other six three answers deep, in this depth-first order. */
  lemma HippoideaOutcomes(dir: string, notes: Notes)
    ensures Outcomes(Kids(Hippoidea(dir, notes))) == [
      ([Largo, MasCorto], HippaTestudinaria),
      ([Largo, MasLargo, Redondeada], EmeritaBrasiliensis),
      ([Largo, MasLargo, Aguda], EmeritaPortoricensis),
      ([Corto, Aserrado, Brusca], AlbuneaCatherinae),
      ([Corto, Aserrado, Suave], AlbuneaParetii),
      ([Corto, Liso, Subovalada], LepidopaVenusta),
      ([Corto, Liso, Subrectangular], LepidopaRichmondi)]
  {
    var hippidae := HippidaeNode(dir, notes);
    var albuneidae := AlbuneidaeNode(dir, notes);
    HippidaeOutcomes(dir, notes);
    AlbuneidaeOutcomes(dir, notes);
    OutcomesOfQuestions(Largo, hippidae, Corto, albuneidae);
    assert Kids(Hippoidea(dir, notes)) == [Entry(Largo, hippidae), Entry(Corto, albuneidae)];
    LongTelsonOutcomes(dir, notes);
    ShortTelsonOutcomes(dir, notes);
    JoinThreeFour(
      ([Largo, MasCorto], HippaTestudinaria),
      ([Largo, MasLargo, Redondeada], EmeritaBrasiliensis),
      ([Largo, MasLargo, Aguda], EmeritaPortoricensis),
      ([Corto, Aserrado, Brusca], AlbuneaCatherinae),
      ([Corto, Aserrado, Suave], AlbuneaParetii),
      ([Corto, Liso, Subovalada], LepidopaVenusta),
      ([Corto, Liso, Subrectangular], LepidopaRichmondi));
  }

  /** The outcomes behind the long-telson option. */
  lemma LongTelsonOutcomes(dir: string, notes: Notes)
    ensures Prefixed(Largo, Outcomes(HippidaeNode(dir, notes).opciones)) == [
      ([Largo, MasCorto], HippaTestudinaria),
      ([Largo, MasLargo, Redondeada], EmeritaBrasiliensis),
      ([Largo, MasLargo, Aguda], EmeritaPortoricensis)]
  {
    HippidaeOutcomes(dir, notes);
    PrefixedThree(Largo, ([MasCorto], HippaTestudinaria),
      ([MasLargo, Redondeada], EmeritaBrasiliensis), ([MasLargo, Aguda], EmeritaPortoricensis));
    InFront(Largo, MasCorto, MasCorto);
    InFront(Largo, MasLargo, Redondeada);
    InFront(Largo, MasLargo, Aguda);
  }

  /** The outcomes behind the short-telson option. */
  lemma ShortTelsonOutcomes(dir: string, notes: Notes)
    ensures Prefixed(Corto, Outcomes(AlbuneidaeNode(dir, notes).opciones)) == [
      ([Corto, Aserrado, Brusca], AlbuneaCatherinae),
      ([Corto, Aserrado, Suave], AlbuneaParetii),
      ([Corto, Liso, Subovalada], LepidopaVenusta),
      ([Corto, Liso, Subrectangular], LepidopaRichmondi)]
  {
    AlbuneidaeOutcomes(dir, notes);
    PrefixedFour(Corto, ([Aserrado, Brusca], AlbuneaCatherinae), ([Aserrado, Suave], AlbuneaParetii),
      ([Liso, Subovalada], LepidopaVenusta), ([Liso, Subrectangular], LepidopaRichmondi));
    InFront(Corto, Aserrado, Brusca);
    InFront(Corto, Aserrado, Suave);
    InFront(Corto, Liso, Subovalada);
    InFront(Corto, Liso, Subrectangular);
  }

  /** The outcomes below the Hippidae question. */
  lemma HippidaeOutcomes(dir: string, notes: Notes)
    ensures HippidaeNode(dir, notes).hasOpciones && "resultado" !in HippidaeNode(dir, notes).text
    ensures Outcomes(HippidaeNode(dir, notes).opciones) == [
      ([MasCorto], HippaTestudinaria),
      ([MasLargo, Redondeada], EmeritaBrasiliensis),
      ([MasLargo, Aguda], EmeritaPortoricensis)]
  {
    var hippa := Entry(MasCorto, Leaf(notes.hippa, HippaTestudinaria, dir + HippaImage));
    var emerita := Entry(MasLargo, EmeritaNode(dir, notes));
    NotedAsk(notes.hippidae, Flagelo, dir + FlageloImage, hippa, emerita);
    NotedAsk(notes.emerita, DactiloEmerita, dir + EmeritaImage,
      Entry(Redondeada, Leaf(notes.brasiliensis, EmeritaBrasiliensis, dir + BrasiliensisImage)),
      Entry(Aguda, Leaf(notes.portoricensis, EmeritaPortoricensis, dir + PortoricensisImage)));
    OutcomesOfLeaves(Redondeada, Leaf(notes.brasiliensis, EmeritaBrasiliensis, dir + BrasiliensisImage),
      Aguda, Leaf(notes.portoricensis, EmeritaPortoricensis, dir + PortoricensisImage));
    OutcomesOfPair(hippa, emerita);
    assert Own(hippa) == [([MasCorto], HippaTestudinaria)] && Nested(hippa) == [];
    assert Own(emerita) == [];
    PrefixedTwo(MasLargo, [Redondeada], EmeritaBrasiliensis, [Aguda], EmeritaPortoricensis);
    InFront(MasLargo, Redondeada, Aguda);
    InFront(MasLargo, Aguda, Aguda);
    var y := Nested(emerita);
    assert y == [([MasLargo, Redondeada], EmeritaBrasiliensis), ([MasLargo, Aguda], EmeritaPortoricensis)];
    assert Outcomes(HippidaeNode(dir, notes).opciones) == [([MasCorto], HippaTestudinaria)] + [] + ([] + y);
  }

  /** The outcomes below the Albuneidae question. */
  lemma AlbuneidaeOutcomes(dir: string, notes: Notes)
    ensures AlbuneidaeNode(dir, notes).hasOpciones && "resultado" !in AlbuneidaeNode(dir, notes).text
    ensures Outcomes(AlbuneidaeNode(dir, notes).opciones) == [
      ([Aserrado, Brusca], AlbuneaCatherinae),
      ([Aserrado, Suave], AlbuneaParetii),
      ([Liso, Subovalada], LepidopaVenusta),
      ([Liso, Subrectangular], LepidopaRichmondi)]
  {
    var l4 := Leaf(notes.catherinae, AlbuneaCatherinae, dir + CatherinaeImage);
    var l5 := Leaf(notes.paretii, AlbuneaParetii, dir + ParetiiImage);
    var l6 := Leaf(notes.venusta, LepidopaVenusta, dir + VenustaImage);
    var l7 := Leaf(notes.richmondi, LepidopaRichmondi, dir + RichmondiImage);
    NotedAsk(notes.albunea, CuartaPata, dir + AlbuneaImage, Entry(Brusca, l4), Entry(Suave, l5));
    NotedAsk(notes.lepidopa, Ojos, dir + LepidopaImage, Entry(Subovalada, l6), Entry(Subrectangular, l7));
    NotedAsk(notes.albuneidae, Caparazon, dir + AlbuneidaeImage,
      Entry(Aserrado, AlbuneaNode(dir, notes)), Entry(Liso, LepidopaNode(dir, notes)));
    OutcomesOfLeaves(Brusca, l4, Suave, l5);
    OutcomesOfLeaves(Subovalada, l6, Subrectangular, l7);
    OutcomesOfQuestions(Aserrado, AlbuneaNode(dir, notes), Liso, LepidopaNode(dir, notes));
    PrefixedTwo(Aserrado, [Brusca], AlbuneaCatherinae, [Suave], AlbuneaParetii);
    PrefixedTwo(Liso, [Subovalada], LepidopaVenusta, [Subrectangular], LepidopaRichmondi);
    InFront(Aserrado, Brusca, Brusca);
    InFront(Aserrado, Suave, Suave);
    InFront(Liso, Subovalada, Subovalada);
    InFront(Liso, Subrectangular, Subrectangular);
  }

  /** The species the key tells apart, in depth-first order. */
  const Species := [HippaTestudinaria, EmeritaBrasiliensis, EmeritaPortoricensis,
    AlbuneaCatherinae, AlbuneaParetii, LepidopaVenusta, LepidopaRichmondi]

  /** The seven results are distinct, so each species has one path. */
  lemma SpeciesDistinct()
    ensures |Species| == 7
    ensures forall i, j | 0 <= i < j < 7 :: Species[i] != Species[j]
  {
    assert Species[0][0] == 'H';
    assert Species[1][0] == 'E' && Species[1][8] == 'b';
    assert Species[2][0] == 'E' && Species[2][8] == 'p';
    assert Species[3][0] == 'A' && Species[3][8] == 'c';
    assert Species[4][0] == 'A' && Species[4][8] == 'p';
    assert Species[5][0] == 'L' && Species[5][9] == 'v';
    assert Species[6][0] == 'L' && Species[6][9] == 'r';
  }
}
