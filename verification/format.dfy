/** Display helpers of frontend/src/utils/format.ts: the colour bands of a score and the
    label and badge of a rate type. */
module Format {
  import opened Wrappers
  import opened Fields

  // ---------------------------------------------------------------------------
  // Score colours

  /** The four bands a score out of 100 falls in. */
  datatype Band = Excellent | Good | Fair | Poor {
    /** Bands ordered from the lowest (0) to the highest (3). */
    function Level(): nat {
      match this
      case Poor => 0
      case Fair => 1
      case Good => 2
      case Excellent => 3
    }
  }

  /** The lowest score of each band above the lowest. */
  const ExcellentFrom: real := 80.0
  const GoodFrom: real := 60.0
  const FairFrom: real := 40.0

  /** The text colour of a score (`punteggioColor`). */
  function PunteggioColor(punteggio: real): (c: string)
    ensures c == "text-green-600" <==> punteggio >= ExcellentFrom
    ensures c == "text-accent-600" <==> GoodFrom <= punteggio < ExcellentFrom
    ensures c == "text-amber-600" <==> FairFrom <= punteggio < GoodFrom
    ensures c == "text-red-600" <==> punteggio < FairFrom
  {
    if punteggio >= 80.0 then "text-green-600"
    else if punteggio >= 60.0 then "text-accent-600"
    else if punteggio >= 40.0 then "text-amber-600"
    else "text-red-600"
  }

  /** The background colour of a score (`punteggioBgColor`). */
  function PunteggioBgColor(punteggio: real): (c: string)
    ensures c == "bg-green-50" <==> punteggio >= ExcellentFrom
    ensures c == "bg-accent-50" <==> GoodFrom <= punteggio < ExcellentFrom
    ensures c == "bg-amber-50" <==> FairFrom <= punteggio < GoodFrom
    ensures c == "bg-red-50" <==> punteggio < FairFrom
    // The background always shows the band of the text colour.
    ensures BandOfBgColor(c) == BandOfColor(PunteggioColor(punteggio))
  {
    if punteggio >= 80.0 then "bg-green-50"
    else if punteggio >= 60.0 then "bg-accent-50"
    else if punteggio >= 40.0 then "bg-amber-50"
    else "bg-red-50"
  }

  /** The band a text colour stands for. */
  function BandOfColor(c: string): Band {
    if c == "text-green-600" then Excellent
    else if c == "text-accent-600" then Good
    else if c == "text-amber-600" then Fair
    else Poor
  }

  /** The band a background colour stands for. */
  function BandOfBgColor(c: string): Band {
    if c == "bg-green-50" then Excellent
    else if c == "bg-accent-50" then Good
    else if c == "bg-amber-50" then Fair
    else Poor
  }

  /** A score's text and background always show the same band. */
  lemma ColorsAgree(punteggio: real)
    ensures BandOfColor(PunteggioColor(punteggio)) == BandOfBgColor(PunteggioBgColor(punteggio))
  {
  }

  /** A higher score never shows a lower band. */
  lemma ColorMonotone(p: real, q: real)
    requires p <= q
    ensures BandOfColor(PunteggioColor(p)).Level() <= BandOfColor(PunteggioColor(q)).Level()
  {
  }

  // ---------------------------------------------------------------------------
  // Rate type label and badge

  /** The name a rate type is stored under. */
  function RateName(t: RateType): string {
    match t
    case Fisso => "fisso"
    case Variabile => "variabile"
    case Misto => "misto"
  }

  /** The names every object literal inherits from `Object.prototype`; looking one of them up
      in `labels` or `classes` gives a function (an object for `__proto__`), not a string. */
  const PrototypeNames: set<string> := {
    "constructor", "hasOwnProperty", "isPrototypeOf", "propertyIsEnumerable",
    "toLocaleString", "toString", "valueOf", "__proto__",
    "__defineGetter__", "__defineSetter__", "__lookupGetter__", "__lookupSetter__"
  }

  /** What a JavaScript expression yields here: a string, or a member inherited from
      `Object.prototype`, which is truthy and is not a string. */
  datatype Shown = Text(s: string) | Inherited(name: string)

  /** `record[key]` on an object literal with the three rate names as its own keys: the own
      value, the inherited member, or `undefined` (`None`). */
  function Lookup(own: map<string, string>, key: string): (r: Option<Shown>)
    ensures key in own ==> r == Some(Text(own[key]))
    ensures key !in own && key in PrototypeNames ==> r == Some(Inherited(key))
    ensures key !in own && key !in PrototypeNames ==> r.None?
  {
    if key in own then Some(Text(own[key]))
    else if key in PrototypeNames then Some(Inherited(key))
    else None
  }

  /** `a || b` where `a` is a lookup: `a` unless it is `undefined` or the empty string. */
  function OrElse(a: Option<Shown>, b: string): Shown {
    match a
    case Some(Text(s)) => if |s| > 0 then Text(s) else Text(b)
    case Some(Inherited(n)) => Inherited(n)
    case None => Text(b)
  }

  const Labels: map<string, string> :=
    map["fisso" := "Tasso Fisso", "variabile" := "Tasso Variabile", "misto" := "Tasso Misto"]

  const BadgeClasses: map<string, string> :=
    map["fisso" := "badge-fisso", "variabile" := "badge-variabile", "misto" := "badge-misto"]

  /** `tipoTassoLabel(tipo)`: the label of a known rate type, the name itself otherwise. */
  function TipoTassoLabel(tipo: string): (r: Shown)
    ensures tipo in Labels ==> r == Text(Labels[tipo])
    ensures tipo !in Labels && tipo !in PrototypeNames ==> r == Text(tipo)
    ensures tipo in PrototypeNames ==> r == Inherited(tipo)
    ensures r.Inherited? <==> tipo in PrototypeNames
  {
    OrElse(Lookup(Labels, tipo), tipo)
  }

  /** `tipoTassoBadgeClass(tipo)`: the badge of a known rate type, the plain badge otherwise. */
  function TipoTassoBadgeClass(tipo: string): (r: Shown)
    ensures tipo in BadgeClasses ==> r == Text(BadgeClasses[tipo])
    ensures tipo !in BadgeClasses && tipo !in PrototypeNames ==> r == Text("badge")
    ensures tipo in PrototypeNames ==> r == Inherited(tipo)
    ensures r.Inherited? <==> tipo in PrototypeNames
  {
    OrElse(Lookup(BadgeClasses, tipo), "badge")
  }

  /** Every stored rate type has its own label and badge, and different rate types get
      different ones. */
  lemma RateTypesShown(t: RateType, u: RateType)
    ensures TipoTassoLabel(RateName(t)).Text? && TipoTassoBadgeClass(RateName(t)).Text?
    ensures TipoTassoLabel(RateName(t)).s[..6] == "Tasso "
    ensures TipoTassoBadgeClass(RateName(t)).s == "badge-" + RateName(t)
    ensures t != u ==> TipoTassoLabel(RateName(t)) != TipoTassoLabel(RateName(u))
  {
  }

  /** An inherited name gives a function or an object instead of a label. */
  lemma InheritedNameIsNoLabel()
    ensures TipoTassoLabel("toString") == Inherited("toString")
    ensures TipoTassoBadgeClass("constructor") == Inherited("constructor")
  {
  }
}
