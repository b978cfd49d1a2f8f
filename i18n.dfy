/** The translation table: the five interface languages and the fields of each table that the
    modelled logic reads (index.tsx, `translations`). */
module I18n {
  import opened Basics
  import opened Text
  import opened Domain

  datatype Language = Fr | En | De | It | Nl

  /** The keys of `translations`, in their declaration order. */
  const SupportedLanguages: seq<Language> := [Fr, En, De, It, Nl]

  function Code(lang: Language): string {
    match lang
    case Fr => "fr"
    case En => "en"
    case De => "de"
    case It => "it"
    case Nl => "nl"
  }

  /** `SUPPORTED_LANGUAGES.includes(s)`, giving the language that has code `s`. */
  function ParseLanguage(s: string): (r: Option<Language>)
    ensures r.Some? ==> Code(r.value) == s
    ensures r.None? ==> forall lang :: Code(lang) != s
  {
    if s == "fr" then Some(Fr)
    else if s == "en" then Some(En)
    else if s == "de" then Some(De)
    else if s == "it" then Some(It)
    else if s == "nl" then Some(Nl)
    else None
  }

  lemma ParseCode(lang: Language)
    ensures ParseLanguage(Code(lang)) == Some(lang)
  {
  }

  /** `saveSuccess`: the banner after a new entry was saved. */
  function SaveSuccess(lang: Language): string {
    match lang
    case Fr => "Itinéraire sauvegardé avec succès !"
    case En => "Itinerary saved successfully!"
    case De => "Route erfolgreich gespeichert!"
    case It => "Itinerario salvato con successo!"
    case Nl => "Route succesvol opgeslagen!"
  }

  /** `updateSuccess`: the banner after an entry was updated. */
  function UpdateSuccess(lang: Language): string {
    match lang
    case Fr => "Sauvegarde modifiée avec succès !"
    case En => "Save updated successfully!"
    case De => "Speicherung erfolgreich aktualisiert!"
    case It => "Salvataggio aggiornato con successo!"
    case Nl => "Opslag succesvol bijgewerkt!"
  }

  /** `transportModes.CAR`. */
  function CarLabel(lang: Language): string {
    match lang
    case Fr => "Voiture"
    case En => "Car"
    case De => "Auto"
    case It => "Auto"
    case Nl => "Auto"
  }

  /** `transportModes.PEDESTRIAN`. */
  function PedestrianLabel(lang: Language): string {
    match lang
    case Fr => "Piéton"
    case En => "Pedestrian"
    case De => "Fußgänger"
    case It => "A piedi"
    case Nl => "Te voet"
  }

  /** `formError`: shown when a required field is empty. */
  function FormError(lang: Language): string {
    match lang
    case Fr => "Veuillez remplir tous les champs obligatoires : nom, départ et destination."
    case En => "Please fill in all required fields: name, start, and destination."
    case De => "Bitte füllen Sie alle erforderlichen Felder aus: Name, Start und Ziel."
    case It => "Si prega di compilare tutti i campi obbligatori: nome, partenza e destinazione."
    case Nl => "Vul alstublieft alle verplichte velden in: naam, start en bestemming."
  }

  /** `returnTripSuffix`: appended to the name of a return trip. */
  function ReturnTripSuffix(lang: Language): string {
    match lang
    case Fr => "Retour"
    case En => "Return"
    case De => "Rückfahrt"
    case It => "Ritorno"
    case Nl => "Terugreis"
  }

  /** `mailtoSubject`. */
  function MailtoSubject(lang: Language): string {
    match lang
    case Fr => "Itinéraire :"
    case En => "Itinerary:"
    case De => "Route:"
    case It => "Itinerario:"
    case Nl => "Route:"
  }

  /** The greeting line of the `mailtoBody` template. */
  function MailtoGreeting(lang: Language): string {
    match lang
    case Fr => "Bonjour,"
    case En => "Hello,"
    case De => "Hallo,"
    case It => "Ciao,"
    case Nl => "Hallo,"
  }

  /** The words before the quoted route name in the `mailtoBody` template. */
  function MailtoLead(lang: Language): string {
    match lang
    case Fr => "Voici le lien vers l'itinéraire"
    case En => "Here is the link for the itinerary"
    case De => "hier ist der Link zur Route"
    case It => "Ecco il link per l'itinerario"
    case Nl => "Hier is de link voor de route"
  }

  /** `stepSingular`. */
  function StepSingular(lang: Language): string {
    match lang
    case Fr => "étape"
    case En => "step"
    case De => "Etappe"
    case It => "tappa"
    case Nl => "etappe"
  }

  /** `stepPlural`. */
  function StepPlural(lang: Language): string {
    match lang
    case Fr => "étapes"
    case En => "steps"
    case De => "Etappen"
    case It => "tappe"
    case Nl => "etappes"
  }

  /** `geminiUserQueryIntro`. */
  function QueryIntro(lang: Language): string {
    match lang
    case Fr => "Je veux un itinéraire nommé"
    case En => "I want an itinerary named"
    case De => "Ich möchte eine Route namens"
    case It => "Voglio un itinerario chiamato"
    case Nl => "Ik wil een route genaamd"
  }

  /** `geminiUserQueryFrom`. */
  function QueryFrom(lang: Language): string {
    match lang
    case Fr => "pour aller de"
    case En => "to go from"
    case De => "um von"
    case It => "per andare da"
    case Nl => "om van"
  }

  /** `geminiUserQueryTo`. */
  function QueryTo(lang: Language): string {
    match lang
    case Fr => "à"
    case En => "to"
    case De => "nach"
    case It => "a"
    case Nl => "naar"
  }

  /** `geminiUserQueryWithTransport`. */
  function QueryWithTransport(lang: Language): string {
    match lang
    case Fr => "en"
    case En => "by"
    case De => "mit"
    case It => "con"
    case Nl => "met"
  }

  /** `geminiUserQueryVia`. */
  function QueryVia(lang: Language): string {
    match lang
    case Fr => "en passant par les étapes suivantes dans cet ordre :"
    case En => "passing through the following steps in this order:"
    case De => "über die folgenden Etappen in dieser Reihenfolge:"
    case It => "passando per le seguenti tappe in questo ordine:"
    case Nl => "via de volgende etappes in deze volgorde:"
  }

  /** `geminiApiError`: the one message every generation failure becomes. */
  function ApiError(lang: Language): string {
    match lang
    case Fr => "La génération de l'itinéraire a échoué. Veuillez vérifier votre connexion ou réessayer plus tard."
    case En => "Itinerary generation failed. Please check your connection or try again later."
    case De => "Die Generierung der Route ist fehlgeschlagen. Bitte überprüfen Sie Ihre Verbindung oder versuchen Sie es später erneut."
    case It => "La generazione dell'itinerario non è riuscita. Controlla la tua connessione o riprova più tardi."
    case Nl => "Het genereren van de route is mislukt. Controleer uw verbinding of probeer het later opnieuw."
  }

  /** `t.transportModes[mode]`: there is no label for `Transit`. */
  function TransportLabel(lang: Language, mode: TransportMode): (r: Option<string>)
    ensures r.Some? <==> mode != Transit
  {
    match mode
    case Car => Some(CarLabel(lang))
    case Pedestrian => Some(PedestrianLabel(lang))
    case Transit => None
  }

  /** `t.mailtoBody(routeName, mapUrl)`. */
  function MailtoBody(lang: Language, routeName: string, mapUrl: string): string {
    MailtoGreeting(lang) + "\n\n" + MailtoLead(lang) + " \"" + routeName + "\":\n" + mapUrl
  }

  /** The mail body ends with the map link on a line of its own. */
  lemma MailtoBodyEndsWithLink(lang: Language, routeName: string, mapUrl: string)
    ensures var b := MailtoBody(lang, routeName, mapUrl);
      |b| > |mapUrl| && b[|b| - |mapUrl|..] == mapUrl && b[|b| - |mapUrl| - 1] == '\n'
  {
    var b := MailtoBody(lang, routeName, mapUrl);
    var head := MailtoGreeting(lang) + "\n\n" + MailtoLead(lang) + " \"" + routeName + "\":\n";
    assert b == head + mapUrl;
    assert head[|head| - 1] == '\n';
  }

  /** `Object.keys(translations).map(lang => translations[lang].returnTripSuffix)`. */
  function AllReturnSuffixes(): (r: seq<string>)
    ensures |r| == |SupportedLanguages|
    ensures forall i :: 0 <= i < |r| ==> r[i] == ReturnTripSuffix(SupportedLanguages[i])
  {
    ["Retour", "Return", "Rückfahrt", "Ritorno", "Terugreis"]
  }

  /** Every language's suffix is among those the bundled revision strips. */
  lemma SuffixListed(lang: Language)
    ensures ReturnTripSuffix(lang) in AllReturnSuffixes()
  {
    assert SupportedLanguages[Code2Index(lang)] == lang;
  }

  function Code2Index(lang: Language): (i: nat)
    ensures i < |SupportedLanguages| && SupportedLanguages[i] == lang
  {
    match lang
    case Fr => 0
    case En => 1
    case De => 2
    case It => 3
    case Nl => 4
  }

  /** No suffix is empty, and none contains a hyphen or a space (so `" - "` cannot occur
      inside one). */
  lemma SuffixShape(suffix: string)
    requires suffix in AllReturnSuffixes()
    ensures suffix != "" && '-' !in suffix && ' ' !in suffix
  {
  }
}
