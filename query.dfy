/** The sentence sent to the route-planning model (`buildUserQuery`) and the rule that turns the
    model's answer into a response or an error (`generateItinerary`). */
module Query {
  import opened Basics
  import opened Text
  import opened Domain
  import opened I18n
  import opened Parcours

  /** `values.slice(1, -1).filter(s => s.trim() !== '')`: the intermediate steps. */
  function Steps(v: seq<string>): seq<string> {
    Filter(Interior(v), HasContent)
  }

  /** Every step is an interior value that is not blank. */
  lemma StepsAreNonBlankInterior(v: seq<string>)
    ensures forall i :: 0 <= i < |Steps(v)| ==> HasContent(Steps(v)[i]) && Steps(v)[i] in Interior(v)
  {
    FilterMembers(Interior(v), HasContent);
  }

  /** Every interior value that is not blank is a step. */
  lemma NonBlankInteriorIsStep(v: seq<string>, i: int)
    requires 0 < i < |v| - 1 && HasContent(v[i])
    ensures v[i] in Steps(v)
  {
    InteriorKept(v, HasContent, i);
  }

  /** There are no steps exactly when every interior value is blank. */
  lemma NoStepsIff(v: seq<string>)
    ensures (forall i :: 0 < i < |v| - 1 ==> !HasContent(v[i])) <==> Steps(v) == []
  {
    InteriorNoneKept(v, HasContent);
  }

  /** The start and the destination never become steps by position: replacing them leaves the
      steps unchanged. */
  lemma StepsIgnoreEnds(v: seq<string>, start: string, destination: string)
    requires |v| >= 2
    ensures Steps(v[0 := start][|v| - 1 := destination]) == Steps(v)
  {
    InteriorIgnoresEnds(v, start, destination);
  }

  /** A blank step added before the destination changes nothing. */
  lemma StepsIgnoreBlankAdded(v: seq<string>, blank: string)
    requires |v| >= 2 && !HasContent(blank)
    ensures Steps(InsertBeforeLast(v, blank)) == Steps(v)
  {
    InteriorInsertBeforeLast(v, blank);
    FilterAppend(Interior(v), [blank], HasContent);
    assert Filter([blank], HasContent) == [];
    assert Filter(Interior(v), HasContent) + [] == Filter(Interior(v), HasContent);
  }

  /** ` ${via} ${steps.join(' ; ')}` when there are steps, otherwise nothing. */
  function ViaClause(lang: Language, steps: seq<string>): (r: string)
    ensures r == "" <==> steps == []
  {
    if steps == [] then "" else " " + QueryVia(lang) + " " + Join(steps, " ; ")
  }

  /** A template literal prints a missing array element as `undefined`. */
  function Interpolate(v: seq<string>, i: int): string {
    if 0 <= i < |v| then v[i] else "undefined"
  }

  /** `t.transportModes[mode].toLowerCase()`; `Transit` has no label, so the call fails. */
  function ModeText(lang: Language, mode: TransportMode): (r: Option<string>)
    ensures r.Some? <==> mode != Transit
    ensures r.Some? ==> r.value == LowerAscii(TransportLabel(lang, mode).value)
  {
    match TransportLabel(lang, mode)
    case None => None
    case Some(lbl) => Some(LowerAscii(lbl))
  }

  /** The labels' only non-ASCII letters are already lower case, so ASCII lower-casing is the
      full `toLowerCase` on them. */
  lemma ModeTextsFr()
    ensures ModeText(Fr, Car) == Some("voiture") && ModeText(Fr, Pedestrian) == Some("piéton")
  {
    assert TransportLabel(Fr, Car) == Some("Voiture") && TransportLabel(Fr, Pedestrian) == Some("Piéton");
    LowerOf("Voiture", "voiture");
    LowerOf("Piéton", "piéton");
  }

  lemma ModeTextsEn()
    ensures ModeText(En, Car) == Some("car") && ModeText(En, Pedestrian) == Some("pedestrian")
  {
    assert TransportLabel(En, Car) == Some("Car") && TransportLabel(En, Pedestrian) == Some("Pedestrian");
    LowerOf("Car", "car");
    LowerOf("Pedestrian", "pedestrian");
  }

  lemma ModeTextsDe()
    ensures ModeText(De, Car) == Some("auto") && ModeText(De, Pedestrian) == Some("fußgänger")
  {
    assert TransportLabel(De, Car) == Some("Auto") && TransportLabel(De, Pedestrian) == Some("Fußgänger");
    LowerOf("Auto", "auto");
    LowerOf("Fußgänger", "fußgänger");
  }

  lemma ModeTextsIt()
    ensures ModeText(It, Car) == Some("auto") && ModeText(It, Pedestrian) == Some("a piedi")
  {
    assert TransportLabel(It, Car) == Some("Auto") && TransportLabel(It, Pedestrian) == Some("A piedi");
    LowerOf("Auto", "auto");
    LowerOf("A piedi", "a piedi");
  }

  lemma ModeTextsNl()
    ensures ModeText(Nl, Car) == Some("auto") && ModeText(Nl, Pedestrian) == Some("te voet")
  {
    assert TransportLabel(Nl, Car) == Some("Auto") && TransportLabel(Nl, Pedestrian) == Some("Te voet");
    LowerOf("Auto", "auto");
    LowerOf("Te voet", "te voet");
  }

  /** A lower-casing worked out character by character. */
  lemma LowerOf(s: string, t: string)
    requires |s| == |t| && forall i :: 0 <= i < |s| ==> LowerChar(s[i]) == t[i]
    ensures LowerAscii(s) == t
  {
  }

  /** The sentence up to the mode text: name, start and destination in quotes, absent
      values printed as `undefined`. */
  function QueryPrefix(lang: Language, name: string, start: string, destination: string): string {
    QueryIntro(lang) + " \"" + name + "\" " + QueryFrom(lang) + " \"" + start + "\" "
      + QueryTo(lang) + " \"" + destination + "\" " + QueryWithTransport(lang) + " "
  }

  /** The prefix, the mode text, the via clause and the full stop. */
  function Sentence(head: string, modeText: string, via: string): string {
    head + modeText + via + "."
  }

  /** `buildUserQuery`; `None` stands for the `TypeError` a request without a label raises. */
  function BuildUserQuery(r: Request<Waypoint>, lang: Language): (q: Option<string>)
    ensures q.Some? <==> r.transportMode != Transit
  {
    var v := Values(r.parcours);
    QueryOf(lang, r.name, r.transportMode, Interpolate(v, 0), Interpolate(v, |v| - 1), Steps(v))
  }

  /** The sentence for a name, a mode, a start, a destination and the steps. */
  function QueryOf(lang: Language, name: string, mode: TransportMode, start: string, destination: string,
                   steps: seq<string>): (q: Option<string>)
    ensures q.Some? <==> mode != Transit
  {
    match ModeText(lang, mode)
    case None => None
    case Some(modeText) => Some(Sentence(QueryPrefix(lang, name, start, destination), modeText, ViaClause(lang, steps)))
  }

  /** The query depends on the route only through its start, its destination and its steps. */
  lemma QueryDependsOnStepsOnly(r: Request<Waypoint>, r': Request<Waypoint>, lang: Language)
    requires r.name == r'.name && r.transportMode == r'.transportMode
    requires |r.parcours| >= 1 && |r'.parcours| >= 1
    requires Values(r.parcours)[0] == Values(r'.parcours)[0]
    requires Values(r.parcours)[|r.parcours| - 1] == Values(r'.parcours)[|r'.parcours| - 1]
    requires Steps(Values(r.parcours)) == Steps(Values(r'.parcours))
    ensures BuildUserQuery(r, lang) == BuildUserQuery(r', lang)
  {
    var v, v' := Values(r.parcours), Values(r'.parcours);
    var start, destination := Interpolate(v, 0), Interpolate(v, |v| - 1);
    assert start == Interpolate(v', 0) && destination == Interpolate(v', |v'| - 1);
    assert BuildUserQuery(r, lang) == QueryOf(lang, r.name, r.transportMode, start, destination, Steps(v));
    assert BuildUserQuery(r', lang) == QueryOf(lang, r.name, r.transportMode, start, destination, Steps(v));
  }

  /** So a blank step added with "add a step" does not change the sentence. */
  lemma QueryIgnoresAddedStep(r: Request<Waypoint>, freshId: int, lang: Language)
    requires |r.parcours| >= 2
    ensures BuildUserQuery(r.(parcours := InsertBeforeLast(r.parcours, Waypoint(freshId, ""))), lang)
         == BuildUserQuery(r, lang)
  {
    var w := Waypoint(freshId, "");
    var p := r.parcours;
    var p' := InsertBeforeLast(p, w);
    assert Values(p') == InsertBeforeLast(Values(p), "") by {
      assert forall i :: 0 <= i < |p'| ==> Values(p')[i] == InsertBeforeLast(Values(p), "")[i];
    }
    HasContentIff("");
    StepsIgnoreBlankAdded(Values(p), "");
    InsertBeforeLastShape(p, w);
    QueryDependsOnStepsOnly(r, r.(parcours := p'), lang);
  }

  /** The sentence ends with a full stop; with steps, right after them, separated by
      `" ; "`; without steps, right after the mode. */
  lemma QueryEnding(r: Request<Waypoint>, lang: Language)
    requires r.transportMode != Transit
    ensures Steps(Values(r.parcours)) == [] ==>
      EndsWith(BuildUserQuery(r, lang).value, ModeText(lang, r.transportMode).value + ".")
    ensures Steps(Values(r.parcours)) != [] ==>
      EndsWith(BuildUserQuery(r, lang).value, " " + Join(Steps(Values(r.parcours)), " ; ") + ".")
  {
    var v := Values(r.parcours);
    var steps := Steps(v);
    var start, destination := Interpolate(v, 0), Interpolate(v, |v| - 1);
    var head := QueryPrefix(lang, r.name, start, destination);
    var modeText := ModeText(lang, r.transportMode).value;
    assert BuildUserQuery(r, lang) == QueryOf(lang, r.name, r.transportMode, start, destination, steps);
    assert QueryOf(lang, r.name, r.transportMode, start, destination, steps).value == Sentence(head, modeText, ViaClause(lang, steps));
    SentenceEnding(head, modeText, lang, steps);
  }

  lemma SentenceEnding(head: string, modeText: string, lang: Language, steps: seq<string>)
    ensures steps == [] ==> EndsWith(Sentence(head, modeText, ViaClause(lang, steps)), modeText + ".")
    ensures steps != [] ==> EndsWith(Sentence(head, modeText, ViaClause(lang, steps)), " " + Join(steps, " ; ") + ".")
  {
    if steps == [] {
      assert Sentence(head, modeText, ViaClause(lang, steps)) == head + (modeText + ".");
      EndsWithAppended(head, modeText + ".");
    } else {
      var via, joined := QueryVia(lang), Join(steps, " ; ");
      assert ViaClause(lang, steps) == " " + via + " " + joined;
      Regroup(head + modeText, via, joined);
      EndsWithAppended(head + modeText + " " + via, " " + joined + ".");
    }
  }

  /** The via clause and the full stop, regrouped so that the steps and the stop come last. */
  lemma Regroup(a: string, via: string, joined: string)
    ensures a + (" " + via + " " + joined) + "." == (a + " " + via) + (" " + joined + ".")
  {
  }

  /** What the model call produced: an answer, possibly without text, or an exception. */
  datatype ApiOutcome = Returned(text: Option<string>) | Threw

  /** The bundled revision's message when no key is configured. */
  const MissingKeyMessage: string := "API_KEY is not configured. Please set it in your deployment environment."

  /** The engine's message for reading `toLowerCase` of `undefined`. */
  const MissingLabelMessage: string := "Cannot read properties of undefined (reading 'toLowerCase')"

  /** The standalone service: an empty or absent text is an error, and every error of the call
      becomes the localized `geminiApiError`. */
  function GenerateStandalone(r: Request<Waypoint>, lang: Language, outcome: ApiOutcome): (res: Result<Response, string>)
    ensures res.Success? <==> r.transportMode != Transit && outcome.Returned? && outcome.text.Some? && outcome.text.value != ""
    ensures res.Success? ==> res.value == Response(outcome.text, r.name)
    ensures res.Failure? && r.transportMode != Transit ==> res.error == ApiError(lang)
  {
    if BuildUserQuery(r, lang).None? then Failure(MissingLabelMessage)
    else
      match outcome
      case Threw => Failure(ApiError(lang))
      case Returned(text) =>
        if text.None? || text.value == "" then Failure(ApiError(lang))
        else Success(Response(text, r.name))
  }

  /** The bundled service: it checks for the key first and stores whatever text came back,
      even none. */
  function GenerateBundled(apiKeyPresent: bool, r: Request<Waypoint>, lang: Language, outcome: ApiOutcome): (res: Result<Response, string>)
    ensures res.Success? <==> apiKeyPresent && r.transportMode != Transit && outcome.Returned?
    ensures res.Success? ==> res.value == Response(outcome.text, r.name)
    ensures !apiKeyPresent ==> res == Failure(MissingKeyMessage)
    ensures res.Failure? && apiKeyPresent && r.transportMode != Transit ==> res.error == ApiError(lang)
  {
    if !apiKeyPresent then Failure(MissingKeyMessage)
    else if BuildUserQuery(r, lang).None? then Failure(MissingLabelMessage)
    else
      match outcome
      case Threw => Failure(ApiError(lang))
      case Returned(text) => Success(Response(text, r.name))
  }

  /** The two revisions agree except on an answer without text, which only the bundled one
      accepts. */
  lemma GenerateRevisionsAgree(r: Request<Waypoint>, lang: Language, outcome: ApiOutcome)
    requires !(outcome.Returned? && (outcome.text.None? || outcome.text.value == ""))
    ensures GenerateBundled(true, r, lang, outcome) == GenerateStandalone(r, lang, outcome)
  {
  }
}
