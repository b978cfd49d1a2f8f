/** The application session (`App`): the current request and response, the saved itineraries
    with the one loaded into the form, and the language. Saving is an upsert, deleting resets
    the form when it removes the loaded itinerary. */
module Session {
  import opened Basics
  import opened Text
  import opened Domain
  import opened I18n
  import opened Parcours

  /** No two saved itineraries share an id. */
  predicate UniqueIds<W(==)>(s: seq<SavedItinerary<W>>) {
    forall i, j :: 0 <= i < j < |s| ==> s[i].id != s[j].id
  }

  predicate IdFree<W(==)>(s: seq<SavedItinerary<W>>, id: int) {
    forall i :: 0 <= i < |s| ==> s[i].id != id
  }

  /** `savedItineraries.find(it => it.id === id)`: the first entry with that id. */
  function FindById<W(==)>(s: seq<SavedItinerary<W>>, id: int): (r: Option<SavedItinerary<W>>)
    ensures r.None? <==> IdFree(s, id)
    ensures r.Some? ==> r.value.id == id && r.value in s
    ensures r.Some? ==> exists i :: 0 <= i < |s| && s[i] == r.value && IdFree(s[..i], id)
  {
    if s == [] then None
    else if s[0].id == id then
      assert s[..0] == [];
      Some(s[0])
    else
      var r := FindById(s[1..], id);
      if r.Some? then
        var i :| 0 <= i < |s[1..]| && s[1..][i] == r.value && IdFree(s[1..][..i], id);
        assert s[..i + 1] == [s[0]] + s[1..][..i];
        ConsIdFree(s[0], s[1..][..i], id);
        assert s[i + 1] == r.value;
        r
      else r
  }

  lemma ConsIdFree<W>(x: SavedItinerary<W>, t: seq<SavedItinerary<W>>, id: int)
    requires x.id != id && IdFree(t, id)
    ensures IdFree([x] + t, id)
  {
    assert forall j :: 0 < j < |t| + 1 ==> ([x] + t)[j] == t[j - 1];
  }

  /** `prev.map(it => it.id === id ? x : it)`. */
  function ReplaceById<W(==)>(s: seq<SavedItinerary<W>>, id: int, x: SavedItinerary<W>): (r: seq<SavedItinerary<W>>)
    ensures |r| == |s|
    ensures forall i :: 0 <= i < |s| ==> r[i] == if s[i].id == id then x else s[i]
  {
    seq(|s|, i requires 0 <= i < |s| => if s[i].id == id then x else s[i])
  }

  /** Replacing the entry with its own id keeps the ids as they were, and that entry is found. */
  lemma ReplaceByIdSpec<W>(s: seq<SavedItinerary<W>>, x: SavedItinerary<W>)
    requires UniqueIds(s) && !IdFree(s, x.id)
    ensures UniqueIds(ReplaceById(s, x.id, x))
    ensures FindById(ReplaceById(s, x.id, x), x.id) == Some(x)
    ensures forall i :: 0 <= i < |s| ==> ReplaceById(s, x.id, x)[i].id == s[i].id
    ensures forall y :: y in s && y.id != x.id ==> y in ReplaceById(s, x.id, x)
  {
    var r := ReplaceById(s, x.id, x);
    forall y | y in s && y.id != x.id ensures y in r {
      var i :| 0 <= i < |s| && s[i] == y;
      assert r[i] == y;
    }
    SameIdsUnique(s, r);
    var i :| 0 <= i < |s| && s[i].id == x.id;
    assert r[i] == x;
    FindUnique(r, x);
  }

  /** A list with the same ids, position by position, as one with unique ids has unique ids. */
  lemma SameIdsUnique<W>(s: seq<SavedItinerary<W>>, r: seq<SavedItinerary<W>>)
    requires UniqueIds(s) && |r| == |s| && forall i :: 0 <= i < |s| ==> r[i].id == s[i].id
    ensures UniqueIds(r)
  {
  }

  /** The test `it => it.id !== id` of the removal. */
  function OtherId<W>(id: int): SavedItinerary<W> -> bool {
    (it: SavedItinerary<W>) => it.id != id
  }

  /** `prev.filter(it => it.id !== id)`. */
  function RemoveById<W(==)>(s: seq<SavedItinerary<W>>, id: int): (r: seq<SavedItinerary<W>>)
    ensures |r| <= |s|
  {
    Filter(s, OtherId(id))
  }

  /** Every entry left by the removal comes from the list and has another id. */
  lemma {:induction false} RemoveByIdKeeps<W>(s: seq<SavedItinerary<W>>, id: int, j: int)
    requires 0 <= j < |RemoveById(s, id)|
    ensures RemoveById(s, id)[j] in s && RemoveById(s, id)[j].id != id
  {
    if s[0].id == id {
      RemoveByIdKeeps(s[1..], id, j);
    } else if j > 0 {
      RemoveByIdKeeps(s[1..], id, j - 1);
    }
  }

  /** Removal keeps exactly the entries with another id, and nothing when the id is not there;
      with unique ids it removes one entry exactly when the id is present, and leaves the
      entries around it in their order. */
  lemma RemoveByIdSpec<W>(s: seq<SavedItinerary<W>>, id: int)
    ensures forall y :: y in RemoveById(s, id) <==> y in s && y.id != id
    ensures IdFree(s, id) ==> RemoveById(s, id) == s
    ensures UniqueIds(s) ==> UniqueIds(RemoveById(s, id))
    ensures UniqueIds(s) ==> |RemoveById(s, id)| == if IdFree(s, id) then |s| else |s| - 1
    ensures UniqueIds(s) ==> forall k :: 0 <= k < |s| && s[k].id == id ==> RemoveById(s, id) == s[..k] + s[k + 1..]
  {
    if UniqueIds(s) {
      forall k | 0 <= k < |s| && s[k].id == id ensures RemoveById(s, id) == s[..k] + s[k + 1..] {
        RemoveByIdSlot(s, k);
      }
    }
    RemoveByIdMembers(s, id);
    if IdFree(s, id) {
      RemoveByIdFree(s, id);
    }
    if UniqueIds(s) {
      RemoveByIdUnique(s, id);
    }
  }

  /** The removal works piece by piece, so the entries it keeps stay in their order. */
  lemma RemoveByIdAppend<W>(a: seq<SavedItinerary<W>>, b: seq<SavedItinerary<W>>, id: int)
    ensures RemoveById(a + b, id) == RemoveById(a, id) + RemoveById(b, id)
  {
    FilterAppend(a, b, OtherId(id));
  }

  /** With unique ids, deleting the entry at position `k` leaves the entries before it and the
      entries after it, in order. */
  lemma RemoveByIdSlot<W>(s: seq<SavedItinerary<W>>, k: int)
    requires UniqueIds(s) && 0 <= k < |s|
    ensures RemoveById(s, s[k].id) == s[..k] + s[k + 1..]
  {
    var id := s[k].id;
    var before, after := s[..k], s[k + 1..];
    assert s == before + [s[k]] + after;
    RemoveByIdAppend(before + [s[k]], after, id);
    RemoveByIdAppend(before, [s[k]], id);
    NeighboursIdFree(s, k);
    RemoveByIdFree(before, id);
    RemoveByIdFree(after, id);
    assert RemoveById([s[k]], id) == [];
  }

  /** With unique ids, no entry before or after position `k` has the id of entry `k`. */
  lemma NeighboursIdFree<W>(s: seq<SavedItinerary<W>>, k: int)
    requires UniqueIds(s) && 0 <= k < |s|
    ensures IdFree(s[..k], s[k].id) && IdFree(s[k + 1..], s[k].id)
  {
    var before, after := s[..k], s[k + 1..];
    assert forall i :: 0 <= i < |before| ==> before[i] == s[i];
    assert forall i :: 0 <= i < |after| ==> after[i] == s[k + 1 + i];
  }

  lemma {:induction false} RemoveByIdMembers<W>(s: seq<SavedItinerary<W>>, id: int)
    ensures forall y :: y in RemoveById(s, id) <==> y in s && y.id != id
  {
    if s != [] {
      RemoveByIdMembers(s[1..], id);
      assert forall y :: y in s <==> y == s[0] || y in s[1..];
    }
  }

  lemma {:induction false} RemoveByIdFree<W>(s: seq<SavedItinerary<W>>, id: int)
    requires IdFree(s, id)
    ensures RemoveById(s, id) == s
  {
    if s != [] {
      TailIds(s, id);
      RemoveByIdFree(s[1..], id);
      assert s == [s[0]] + s[1..];
    }
  }

  lemma {:induction false} RemoveByIdUnique<W>(s: seq<SavedItinerary<W>>, id: int)
    requires UniqueIds(s)
    ensures UniqueIds(RemoveById(s, id))
    ensures |RemoveById(s, id)| == if IdFree(s, id) then |s| else |s| - 1
  {
    if s != [] {
      var tail := s[1..];
      TailIds(s, id);
      RemoveByIdUnique(tail, id);
      if s[0].id != id {
        var rest := RemoveById(tail, id);
        forall j | 0 <= j < |rest| ensures rest[j].id != s[0].id {
          RemoveByIdKeeps(tail, id, j);
          var k :| 0 <= k < |tail| && tail[k] == rest[j];
          assert s[k + 1] == rest[j];
        }
        ConsUnique(s[0], rest);
      }
    }
  }

  /** What the ids of a non-empty list say about the ids of its tail. */
  lemma TailIds<W>(s: seq<SavedItinerary<W>>, id: int)
    requires s != []
    ensures UniqueIds(s) ==> UniqueIds(s[1..])
    ensures UniqueIds(s) && s[0].id == id ==> IdFree(s[1..], id)
    ensures IdFree(s, id) ==> IdFree(s[1..], id)
    ensures s[0].id != id ==> (IdFree(s, id) <==> IdFree(s[1..], id))
  {
    var tail := s[1..];
    assert forall j :: 0 <= j < |tail| ==> tail[j] == s[j + 1];
  }

  /** An entry whose id the rest does not use, in front of a list with unique ids. */
  lemma ConsUnique<W>(x: SavedItinerary<W>, rest: seq<SavedItinerary<W>>)
    requires UniqueIds(rest) && forall j :: 0 <= j < |rest| ==> rest[j].id != x.id
    ensures UniqueIds([x] + rest)
  {
    var r := [x] + rest;
    forall i, j | 0 <= i < j < |r| ensures r[i].id != r[j].id {
      if i > 0 {
        assert r[i] == rest[i - 1] && r[j] == rest[j - 1];
      } else {
        assert r[j] == rest[j - 1];
      }
    }
  }

  /** `loadedItineraryId ? savedItineraries.find(...) : null`: an id of 0 is falsy and counts as
      nothing loaded. */
  function LoadedFrom<W(==)>(s: seq<SavedItinerary<W>>, loadedId: Option<int>): (r: Option<SavedItinerary<W>>)
    ensures r.Some? ==> loadedId.Some? && loadedId.value != 0 && r.value.id == loadedId.value && r.value in s
    ensures loadedId.Some? && loadedId.value != 0 && !IdFree(s, loadedId.value) ==> r.Some?
  {
    if loadedId.Some? && loadedId.value != 0 then FindById(s, loadedId.value) else None
  }

  /** The entry a save overwrites: the loaded one, when the form still carries its name. */
  function UpdateTarget<W(==)>(s: seq<SavedItinerary<W>>, loadedId: Option<int>, name: string): (r: Option<SavedItinerary<W>>)
    ensures r.Some? <==> LoadedFrom(s, loadedId).Some? && LoadedFrom(s, loadedId).value.request.name == name
  {
    match LoadedFrom(s, loadedId)
    case Some(it) => if it.request.name == name then Some(it) else None
    case None => None
  }

  /** The saved list after saving `request` with `response`: the update target replaced under
      its own id, or else a new entry with `freshId` at the end. */
  function Upsert<W(==)>(s: seq<SavedItinerary<W>>, loadedId: Option<int>, request: Request<W>, response: Response, freshId: int)
    : (r: seq<SavedItinerary<W>>)
    ensures |r| == if UpdateTarget(s, loadedId, request.name).Some? then |s| else |s| + 1
  {
    match UpdateTarget(s, loadedId, request.name)
    case Some(it) => ReplaceById(s, it.id, SavedItinerary(it.id, request, response))
    case None => s + [SavedItinerary(freshId, request, response)]
  }

  /** An update keeps the size and the ids and stores the new request and response under the
      loaded id; otherwise the list grows by one entry at the end, with the fresh id, and the
      earlier entries stay as they were. Ids stay unique either way. */
  lemma UpsertSpec<W>(s: seq<SavedItinerary<W>>, loadedId: Option<int>, request: Request<W>, response: Response, freshId: int)
    requires UniqueIds(s) && IdFree(s, freshId)
    ensures var r := Upsert(s, loadedId, request, response, freshId);
      && UniqueIds(r)
      && (UpdateTarget(s, loadedId, request.name).Some? ==>
            && |r| == |s|
            && FindById(r, loadedId.value) == Some(SavedItinerary(loadedId.value, request, response))
            && (forall i :: 0 <= i < |s| ==> r[i].id == s[i].id))
      && (UpdateTarget(s, loadedId, request.name).None? ==>
            && |r| == |s| + 1
            && r[..|s|] == s
            && r[|s|] == SavedItinerary(freshId, request, response))
  {
    match UpdateTarget(s, loadedId, request.name)
    case Some(it) =>
      assert !IdFree(s, it.id);
      ReplaceByIdSpec(s, SavedItinerary(it.id, request, response));
    case None =>
      var r := s + [SavedItinerary(freshId, request, response)];
      assert r[..|s|] == s;
  }

  /** The request the form starts from in the string revision: no name, by car, an empty start
      and an empty destination, no position. */
  function InitialItineraryRequest(): (r: Request<string>)
    ensures r.name == "" && r.transportMode == Car && r.parcours == ["", ""] && r.currentLocation.None?
  {
    Request("", Car, ["", ""], None)
  }

  /** The bundled revision's `createInitialRequest`, with the clock reading `now` as the ids of
      its two waypoints. */
  function CreateInitialRequest(now: int): (r: Request<Waypoint>)
    ensures DistinctIds(r.parcours)
  {
    Request("", Car, [Waypoint(now, ""), Waypoint(now + 1, "")], None)
  }

  /** Both revisions start from the same blank form. */
  lemma InitialRequestsAgree(now: int)
    ensures var r := CreateInitialRequest(now);
      && Values(r.parcours) == InitialItineraryRequest().parcours
      && r.name == InitialItineraryRequest().name
      && r.transportMode == InitialItineraryRequest().transportMode
      && r.currentLocation == InitialItineraryRequest().currentLocation
  {
  }

  /** A blank form: no name, by car, two empty points, no position. Whether a point is empty
      is `emptyPoint`: `p === ''` for a string and `p.value === ''` for a waypoint. */
  predicate IsBlankForm<W>(r: Request<W>, emptyPoint: W -> bool) {
    && r.name == "" && r.transportMode == Car && r.currentLocation.None?
    && |r.parcours| == 2 && emptyPoint(r.parcours[0]) && emptyPoint(r.parcours[1])
  }

  function EmptyString(): string -> bool {
    (p: string) => p == ""
  }

  function EmptyWaypoint(): Waypoint -> bool {
    (p: Waypoint) => p.value == ""
  }

  /** In the string revision the blank form is exactly `initialItineraryRequest`; in the bundled
      revision `createInitialRequest` gives a blank form, and every blank form has its values,
      whatever the two ids. */
  lemma BlankForms(r: Request<string>, w: Request<Waypoint>, now: int)
    ensures IsBlankForm(r, EmptyString()) <==> r == InitialItineraryRequest()
    ensures IsBlankForm(CreateInitialRequest(now), EmptyWaypoint())
    ensures IsBlankForm(w, EmptyWaypoint()) ==>
      && Values(w.parcours) == InitialItineraryRequest().parcours
      && w.name == "" && w.transportMode == Car && w.currentLocation.None?
  {
    if IsBlankForm(r, EmptyString()) {
      assert r.parcours == ["", ""];
    }
  }

  /** The starting language: the stored code when it is supported, else the primary subtag of
      the browser language when supported, else English. */
  function InitialLanguage(stored: Option<string>, browserLanguage: string): (r: Language)
    ensures || (stored.Some? && ParseLanguage(stored.value) == Some(r))
            || ParseLanguage(Split(browserLanguage, '-')[0]) == Some(r)
            || r == En
    ensures stored.Some? && ParseLanguage(stored.value).Some? ==> Some(r) == ParseLanguage(stored.value)
    ensures !(stored.Some? && ParseLanguage(stored.value).Some?) ==>
      (Some(r) == ParseLanguage(Split(browserLanguage, '-')[0]) || (ParseLanguage(Split(browserLanguage, '-')[0]).None? && r == En))
  {
    if stored.Some? && stored.value != "" && ParseLanguage(stored.value).Some? then ParseLanguage(stored.value).value
    else
      match ParseLanguage(Split(browserLanguage, '-')[0])
      case Some(lang) => lang
      case None => En
  }

  /** A stored supported code wins; a stored value that is not supported (the empty one
      included) counts as nothing stored; then a browser language `<code>` or `<code>-<region>`
      of a supported code gives that language, and an unsupported one gives English. */
  lemma InitialLanguageSpec(lang: Language, region: string, stored: string, other: string)
    requires '-' !in region
    ensures InitialLanguage(Some(Code(lang)), other) == lang
    ensures ParseLanguage(stored).None? ==> InitialLanguage(Some(stored), other) == InitialLanguage(None, other)
    ensures InitialLanguage(None, Code(lang)) == lang
    ensures InitialLanguage(None, Code(lang) + "-" + region) == lang
    ensures ParseLanguage(Split(other, '-')[0]).None? ==> InitialLanguage(None, other) == En
  {
    ParseCode(lang);
    assert '-' !in Code(lang);
    SplitNoSeparator(Code(lang), '-');
    SplitAfterPart(Code(lang), region, '-');
    assert Code(lang) + "-" + region == Code(lang) + ['-'] + region;
  }

  /** The state `App` keeps. */
  class AppSession<W(==)> {
    /** Which route points count as empty, for the blank form the session resets to. */
    const emptyPoint: W -> bool
    var language: Language
    var request: Request<W>
    var response: Option<Response>
    var isLoading: bool
    var error: Option<string>
    var saved: seq<SavedItinerary<W>>
    var successMessage: Option<string>
    var loadedId: Option<int>

    predicate Valid()
      reads this
    {
      UniqueIds(saved)
    }

    constructor(language: Language, emptyPoint: W -> bool, blank: Request<W>)
      requires IsBlankForm(blank, emptyPoint)
      ensures this.emptyPoint == emptyPoint && IsBlankForm(request, emptyPoint)
      ensures this.language == language && request == blank && response.None? && !isLoading
      ensures error.None? && saved == [] && successMessage.None? && loadedId.None?
      ensures Valid()
    {
      this.emptyPoint := emptyPoint;
      this.language := language;
      request := blank;
      response := None;
      isLoading := false;
      error := None;
      saved := [];
      successMessage := None;
      loadedId := None;
    }

    /** `loadedItinerary`. */
    function LoadedItinerary(): (r: Option<SavedItinerary<W>>)
      reads this
      ensures r.Some? ==> r.value in saved && loadedId == Some(r.value.id) && r.value.id != 0
      ensures loadedId.Some? && loadedId.value != 0 && !IdFree(saved, loadedId.value) ==> r.Some?
    {
      LoadedFrom(saved, loadedId)
    }

    /** `isUpdate`: the loaded itinerary exists and the form still carries its name. */
    function IsUpdate(): (b: bool)
      reads this
      ensures b <==> LoadedItinerary().Some? && LoadedItinerary().value.request.name == request.name
    {
      UpdateTarget(saved, loadedId, request.name).Some?
    }

    /** `isSavedItineraryLoaded`. */
    function IsSavedItineraryLoaded(): (b: bool)
      reads this
      ensures LoadedItinerary().Some? ==> b
    {
      loadedId.Some? && loadedId.value != 0
    }

    /** `handleLangChange`. */
    method LangChange(lang: Language)
      modifies this
      ensures language == lang
      ensures request == old(request) && response == old(response) && isLoading == old(isLoading)
      ensures error == old(error) && saved == old(saved) && successMessage == old(successMessage)
      ensures loadedId == old(loadedId)
    {
      language := lang;
    }

    /** `handleRequestChange`: any edit of the form hides the result shown for the old one. */
    method RequestChange(r: Request<W>)
      modifies this
      ensures request == r && response.None?
      ensures language == old(language) && isLoading == old(isLoading) && error == old(error)
      ensures saved == old(saved) && successMessage == old(successMessage) && loadedId == old(loadedId)
    {
      request := r;
      if response.Some? {
        response := None;
      }
    }

    /** `handleGenerate`, the awaited call taken as one step: `result` is what the service
      returned or the message it threw. */
    method Generate(r: Request<W>, result: Result<Response, string>)
      modifies this
      ensures request == r && !isLoading
      ensures result.Success? ==> response == Some(result.value) && error.None?
      ensures result.Failure? ==> response.None? && error == Some(result.error)
      ensures language == old(language) && saved == old(saved)
      ensures successMessage == old(successMessage) && loadedId == old(loadedId)
    {
      isLoading := true;
      error := None;
      response := None;
      request := r;
      if result.Success? {
        response := Some(result.value);
      } else {
        error := Some(result.error);
      }
      isLoading := false;
    }

    /** `handleNewItinerary`: the blank form, no result, no error, nothing loaded. */
    method NewItinerary(blank: Request<W>)
      requires IsBlankForm(blank, emptyPoint)
      modifies this
      ensures IsBlankForm(request, emptyPoint)
      ensures request == blank && response.None? && error.None? && loadedId.None?
      ensures language == old(language) && isLoading == old(isLoading)
      ensures saved == old(saved) && successMessage == old(successMessage)
    {
      request := blank;
      response := None;
      error := None;
      loadedId := None;
    }

    /** `handleSaveItinerary`: nothing without a result; otherwise the upsert, the localized
      confirmation, and the blank form. */
    method Save(freshId: int, blank: Request<W>)
      requires Valid() && IdFree(saved, freshId) && IsBlankForm(blank, emptyPoint)
      modifies this
      ensures Valid()
      ensures old(response).None? ==>
        && saved == old(saved) && request == old(request) && response == old(response)
        && error == old(error) && loadedId == old(loadedId) && successMessage == old(successMessage)
      ensures old(response).Some? ==>
        && saved == Upsert(old(saved), old(loadedId), old(request), old(response).value, freshId)
        && successMessage == Some(if old(IsUpdate()) then UpdateSuccess(language) else SaveSuccess(language))
        && request == blank && response.None? && error.None? && loadedId.None?
      ensures language == old(language) && isLoading == old(isLoading)
    {
      if response.None? {
        return;
      }
      var update := IsUpdate();
      UpsertSpec(saved, loadedId, request, response.value, freshId);
      saved := Upsert(saved, loadedId, request, response.value, freshId);
      successMessage := Some(if update then UpdateSuccess(language) else SaveSuccess(language));
      NewItinerary(blank);
    }

    /** The confirmation disappears after a while. */
    method SuccessTimeout()
      modifies this
      ensures successMessage.None?
      ensures language == old(language) && request == old(request) && response == old(response)
      ensures isLoading == old(isLoading) && error == old(error) && saved == old(saved)
      ensures loadedId == old(loadedId)
    {
      successMessage := None;
    }

    /** `handleDeleteItinerary`: the entries with that id go; the form is reset only when that
      itinerary was the loaded one. */
    method Delete(id: int, blank: Request<W>)
      requires Valid() && IsBlankForm(blank, emptyPoint)
      modifies this
      ensures Valid()
      ensures saved == RemoveById(old(saved), id)
      ensures old(loadedId) == Some(id) ==> request == blank && response.None? && error.None? && loadedId.None?
      ensures old(loadedId) != Some(id) ==>
        request == old(request) && response == old(response) && error == old(error) && loadedId == old(loadedId)
      ensures language == old(language) && isLoading == old(isLoading) && successMessage == old(successMessage)
    {
      RemoveByIdSpec(saved, id);
      saved := RemoveById(saved, id);
      if loadedId == Some(id) {
        NewItinerary(blank);
      }
    }

    /** `handleViewItinerary`: the saved request and response in the form, that id loaded. */
    method View(it: SavedItinerary<W>)
      modifies this
      ensures request == it.request && response == Some(it.response) && loadedId == Some(it.id) && error.None?
      ensures language == old(language) && isLoading == old(isLoading)
      ensures saved == old(saved) && successMessage == old(successMessage)
    {
      request := it.request;
      response := Some(it.response);
      loadedId := Some(it.id);
      error := None;
    }
  }

  /** With unique ids, looking up the id of a stored entry finds that entry. */
  lemma {:induction false} FindUnique<W>(s: seq<SavedItinerary<W>>, x: SavedItinerary<W>)
    requires UniqueIds(s) && x in s
    ensures FindById(s, x.id) == Some(x)
  {
    var k :| 0 <= k < |s| && s[k] == x;
    if s[0].id != x.id {
      var tail := s[1..];
      assert tail[k - 1] == x;
      forall i, j | 0 <= i < j < |tail| ensures tail[i].id != tail[j].id {
        assert tail[i] == s[i + 1] && tail[j] == s[j + 1];
      }
      FindUnique(tail, x);
    }
  }

  /** Viewing a saved itinerary with a non-zero id and saving it again, unchanged, updates that
      entry in place: the list keeps its size and the entry keeps its id. */
  lemma ViewThenSaveUpdates<W>(s: seq<SavedItinerary<W>>, it: SavedItinerary<W>, freshId: int)
    requires UniqueIds(s) && IdFree(s, freshId) && it in s && it.id != 0
    ensures UpdateTarget(s, Some(it.id), it.request.name) == Some(it)
    ensures |Upsert(s, Some(it.id), it.request, it.response, freshId)| == |s|
  {
    FindUnique(s, it);
    UpsertSpec(s, Some(it.id), it.request, it.response, freshId);
  }

  /** A saved itinerary loaded from a renamed form is kept: saving appends a new entry. */
  lemma RenamedSaveAppends<W>(s: seq<SavedItinerary<W>>, loadedId: Option<int>, request: Request<W>, response: Response, freshId: int)
    requires UniqueIds(s) && IdFree(s, freshId)
    requires LoadedFrom(s, loadedId).Some? && LoadedFrom(s, loadedId).value.request.name != request.name
    ensures Upsert(s, loadedId, request, response, freshId) == s + [SavedItinerary(freshId, request, response)]
  {
  }
}
