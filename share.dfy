/** The links the result screen offers (`ItineraryDisplay`): the Google Maps directions URL,
    the QR-code image URL that carries it, and the `mailto:` link that sends it. */
module Share {
  import opened Basics
  import opened Text
  import opened Domain
  import opened I18n
  import opened Query
  import opened PercentEncoding
  import opened Urls

  const MapsBase: string := "https://www.google.com/maps/dir/"
  const QrBase: string := "https://api.qrserver.com/v1/create-qr-code/"
  const QrOptions: string := "size=150x150&bgcolor=ffffff&color=1e293b&qzone=1"

  /** `parcoursValues[0] || ''`. */
  function StartOf(v: seq<string>): string {
    if |v| > 0 then v[0] else ""
  }

  /** `parcoursValues[parcoursValues.length - 1] || ''`. */
  function DestinationOf(v: seq<string>): string {
    if |v| > 0 then v[|v| - 1] else ""
  }

  /** `steps.join('|')`: empty exactly when there is no step. */
  function Waypoints(v: seq<string>): (r: string)
    ensures r == "" <==> Steps(v) == []
  {
    StepsNotEmpty(v);
    JoinEmptyIff(Steps(v), "|");
    Join(Steps(v), "|")
  }

  /** When no step contains `|`, the waypoints split back into the steps. */
  lemma WaypointsSplit(v: seq<string>)
    requires Steps(v) != []
    requires forall i :: 0 <= i < |Steps(v)| ==> '|' !in Steps(v)[i]
    ensures Split(Waypoints(v), '|') == Steps(v)
  {
    SplitJoin(Steps(v), '|');
  }

  /** No step is the empty string: a step has content. */
  lemma StepsNotEmpty(v: seq<string>)
    ensures forall i :: 0 <= i < |Steps(v)| ==> Steps(v)[i] != ""
  {
    var steps := Steps(v);
    StepsAreNonBlankInterior(v);
    forall i | 0 <= i < |steps| ensures steps[i] != "" {
      assert HasContent(steps[i]);
    }
  }

  /** `travelModeMapping[transportMode]`; the map has no entry for `Transit`, and appending
      `undefined` writes the text `undefined`. */
  function TravelMode(mode: TransportMode): (r: string)
    ensures mode == Car <==> r == "driving"
    ensures mode == Pedestrian <==> r == "walking"
  {
    match mode
    case Car => "driving"
    case Pedestrian => "walking"
    case Transit => "undefined"
  }

  /** The parameters appended to the directions URL, in the order they are appended; the
      waypoints only when there are some. */
  function DirectionsParams(start: string, destination: string, waypoints: string, travelmode: string): seq<Param> {
    [("api", "1"), ("origin", start), ("destination", destination)]
      + (if waypoints != "" then [("waypoints", waypoints)] else [])
      + [("travelmode", travelmode)]
  }

  /** The directions parameters for the values of a route. */
  function MapParams(v: seq<string>, mode: TransportMode): seq<Param> {
    DirectionsParams(StartOf(v), DestinationOf(v), Waypoints(v), TravelMode(mode))
  }

  /** The directions URL for the values of a route. */
  function MapUrlOf(v: seq<string>, mode: TransportMode): (r: string)
    ensures |r| > |MapsBase| && r[..|MapsBase|] == MapsBase && r[|MapsBase|] == '?'
  {
    var ps := MapParams(v, mode);
    var r := HrefOf(MapsBase, ps);
    assert ps != [] && r == MapsBase + "?" + SerializeForm(ps);
    PrefixThenMark(MapsBase, SerializeForm(ps));
    r
  }

  /** Derives the start, the destination, the waypoints and the travel mode from the route,
      then builds the directions URL from them. */
  method ConstructMapUrl(v: seq<string>, mode: TransportMode) returns (mapUrl: string)
    ensures mapUrl == MapUrlOf(v, mode)
  {
    var start := StartOf(v);
    var destination := DestinationOf(v);
    var waypoints := Waypoints(v);
    var travelmode := TravelMode(mode);
    mapUrl := NewDirectionsUrl(start, destination, waypoints, travelmode);
  }

  /** Builds the directions URL on a `URL` object, appending one parameter after the other. */
  method NewDirectionsUrl(start: string, destination: string, waypoints: string, travelmode: string)
    returns (mapUrl: string)
    ensures mapUrl == HrefOf(MapsBase, DirectionsParams(start, destination, waypoints, travelmode))
  {
    assert '?' !in MapsBase && '#' !in MapsBase;
    var url := new Url(MapsBase);
    url.Append("api", "1");
    url.Append("origin", start);
    url.Append("destination", destination);
    ghost var fixed := url.searchParams;
    assert fixed == [("api", "1"), ("origin", start), ("destination", destination)];
    if waypoints != "" {
      url.Append("waypoints", waypoints);
    }
    assert url.searchParams == fixed + (if waypoints != "" then [("waypoints", waypoints)] else []);
    url.Append("travelmode", travelmode);
    mapUrl := url.Href();
  }

  /** The query of the directions URL reads back as exactly the parameters appended. */
  lemma MapUrlQuery(v: seq<string>, mode: TransportMode)
    ensures AfterFirst(MapUrlOf(v, mode), '?').Some?
    ensures ParseForm(AfterFirst(MapUrlOf(v, mode), '?').value) == Some(MapParams(v, mode))
  {
    assert '?' !in MapsBase;
    QueryOfHref(MapsBase, MapParams(v, mode));
  }

  /** The parameters are `api=1`, the start, the destination, the steps joined by `|` only
      when there are some, and the travel mode last. */
  lemma MapParamsShape(v: seq<string>, mode: TransportMode)
    ensures var ps := MapParams(v, mode);
      && (|ps| == 5 <==> Steps(v) != [])
      && (|ps| == 4 <==> Steps(v) == [])
      && ps[0] == ("api", "1")
      && ps[1] == ("origin", StartOf(v))
      && ps[2] == ("destination", DestinationOf(v))
      && (Steps(v) != [] ==> ps[3] == ("waypoints", Join(Steps(v), "|")))
      && ps[|ps| - 1] == ("travelmode", TravelMode(mode))
  {
  }

  /** The QR-code image URL: the directions URL as the `data` parameter, then fixed options. */
  function QrCodeUrl(mapUrl: string): string {
    QrBase + "?" + ("data" + "=" + EncodeUriComponent(mapUrl) + "&" + QrOptions)
  }

  /** The first query field of the QR-code URL is `data=` followed by a text that decodes back to
      the directions URL; the fixed options follow it. */
  lemma QrCodeCarriesMapUrl(mapUrl: string)
    ensures AfterFirst(QrCodeUrl(mapUrl), '?').Some?
    ensures var fields := Split(AfterFirst(QrCodeUrl(mapUrl), '?').value, '&');
      && fields[0] == "data" + "=" + EncodeUriComponent(mapUrl)
      && Split(fields[0], '=') == ["data", EncodeUriComponent(mapUrl)]
      && PercentDecode(UriComponent, Split(fields[0], '=')[1]) == Some(mapUrl)
  {
    var enc := EncodeUriComponent(mapUrl);
    NoDelimiters(UriComponent, mapUrl);
    assert '?' !in QrBase;
    var query := "data" + "=" + enc + "&" + QrOptions;
    QueryAfterMark(QrBase, query);
    FieldThenMore("data", enc, QrOptions);
    PercentRoundTrip(UriComponent, mapUrl);
  }

  /** `mailto:?subject=<subject text> <route name>&body=<body>`, each part passed through
      `encodeURIComponent` and a plain space between the two parts of the subject. */
  function MailtoOf(subjectText: string, routeName: string, bodyText: string): (r: string)
    ensures |r| > 16 && r[..16] == "mailto:?subject="
  {
    var subject := EncodeUriComponent(subjectText) + " " + EncodeUriComponent(routeName);
    var body := EncodeUriComponent(bodyText);
    var r := "mailto:" + "?" + ("subject" + "=" + subject + "&" + ("body" + "=" + body));
    assert r == "mailto:?subject=" + (subject + "&" + ("body" + "=" + body));
    r
  }

  /** The `mailto:` link of the result screen: the localized subject, the route name, and the
      localized body with the directions URL. */
  function MailtoLink(lang: Language, routeName: string, mapUrl: string): (r: string)
    ensures |r| > 16 && r[..16] == "mailto:?subject="
  {
    MailtoOf(MailtoSubject(lang), routeName, MailtoBody(lang, routeName, mapUrl))
  }

  /** A base followed by `?` and a query starts with the base and then `?`. */
  lemma PrefixThenMark(base: string, query: string)
    ensures var r := base + "?" + query;
      |r| > |base| && r[..|base|] == base && r[|base|] == '?'
  {
  }

  /** A `mailto:` link has exactly two query fields; the subject decodes to the subject text,
      a space and the route name, and the body decodes to the body text. */
  lemma MailtoCarries(subjectText: string, routeName: string, bodyText: string)
    ensures AfterFirst(MailtoOf(subjectText, routeName, bodyText), '?').Some?
    ensures var fields := Split(AfterFirst(MailtoOf(subjectText, routeName, bodyText), '?').value, '&');
      && |fields| == 2
      && Split(fields[0], '=') == ["subject", EncodeUriComponent(subjectText) + " " + EncodeUriComponent(routeName)]
      && Split(fields[1], '=') == ["body", EncodeUriComponent(bodyText)]
      && PercentDecode(UriComponent, Split(fields[0], '=')[1]) == Some(subjectText + " " + routeName)
      && PercentDecode(UriComponent, Split(fields[1], '=')[1]) == Some(bodyText)
  {
    var subject := EncodeUriComponent(subjectText) + " " + EncodeUriComponent(routeName);
    var body := EncodeUriComponent(bodyText);
    NoDelimiters(UriComponent, subjectText);
    NoDelimiters(UriComponent, routeName);
    NoDelimiters(UriComponent, bodyText);
    var query := "subject" + "=" + subject + "&" + ("body" + "=" + body);
    QueryAfterMark("mailto:", query);
    FieldThenMore("subject", subject, "body" + "=" + body);
    LastField("body", body);
    DecodeSpaceJoined(subjectText, routeName);
    PercentRoundTrip(UriComponent, bodyText);
  }

  /** The mail sent from the result screen carries the localized subject with the route name,
      and a body that decodes to the localized text ending with the directions URL. */
  lemma MailtoCarriesSubjectAndBody(lang: Language, routeName: string, mapUrl: string)
    ensures var link := MailtoLink(lang, routeName, mapUrl);
      && AfterFirst(link, '?').Some?
      && var fields := Split(AfterFirst(link, '?').value, '&');
      && |fields| == 2
      && |Split(fields[0], '=')| == 2 && |Split(fields[1], '=')| == 2
      && PercentDecode(UriComponent, Split(fields[0], '=')[1]) == Some(MailtoSubject(lang) + " " + routeName)
      && PercentDecode(UriComponent, Split(fields[1], '=')[1]) == Some(MailtoBody(lang, routeName, mapUrl))
      && EndsWith(MailtoBody(lang, routeName, mapUrl), mapUrl)
  {
    MailtoCarries(MailtoSubject(lang), routeName, MailtoBody(lang, routeName, mapUrl));
    MailtoBodyEndsWithLink(lang, routeName, mapUrl);
  }

  /** The query of a URL whose base has no `?` is everything after the `?`. */
  lemma QueryAfterMark(base: string, query: string)
    requires '?' !in base
    ensures AfterFirst(base + "?" + query, '?') == Some(query)
  {
    AfterFirstJoin(base, '?', query);
  }

  /** A `name=value` field followed by `&` and more fields. */
  lemma FieldThenMore(name: string, value: string, more: string)
    requires '&' !in name && '=' !in name && '&' !in value && '=' !in value
    ensures Split(name + "=" + value + "&" + more, '&') == [name + "=" + value] + Split(more, '&')
    ensures Split(name + "=" + value, '=') == [name, value]
  {
    SplitAfterPart(name + "=" + value, more, '&');
    SplitAfterPart(name, value, '=');
    SplitNoSeparator(value, '=');
  }

  /** A `name=value` field with nothing after it. */
  lemma LastField(name: string, value: string)
    requires '&' !in name && '=' !in name && '&' !in value && '=' !in value
    ensures Split(name + "=" + value, '&') == [name + "=" + value]
    ensures Split(name + "=" + value, '=') == [name, value]
  {
    SplitNoSeparator(name + "=" + value, '&');
    SplitAfterPart(name, value, '=');
    SplitNoSeparator(value, '=');
  }
}
