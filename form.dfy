/** The itinerary form: its route-editing handlers, the submit check and the drag state, for the
    bundled revision (route points with ids) and for the standalone form (plain strings). */
module Form {
  import opened Basics
  import opened Domain
  import opened I18n
  import opened Parcours
  import opened ReturnTrip

  // ---------------------------------------------------------------- bundled revision

  /** `parcours.map((p, i) => i === index ? {...p, value} : p)`. */
  function ChangeValue(p: seq<Waypoint>, index: int, value: string): (r: seq<Waypoint>)
    ensures |r| == |p| && Ids(r) == Ids(p)
    ensures forall i :: 0 <= i < |p| && i != index ==> r[i] == p[i]
    ensures 0 <= index < |p| ==> r[index].value == value
  {
    seq(|p|, i requires 0 <= i < |p| => if i == index then p[i].(value := value) else p[i])
  }

  /** `splice(length - 1, 0, {id, value: ''})` with `id` the clock reading `Date.now()`. */
  function AddStep(p: seq<Waypoint>, freshId: int): (r: seq<Waypoint>)
    ensures |r| == |p| + 1
    ensures p != [] ==> r[|p| - 1] == Waypoint(freshId, "") && r[|p|] == p[|p| - 1]
    ensures |p| >= 2 ==> r[0] == p[0]
  {
    InsertBeforeLast(p, Waypoint(freshId, ""))
  }

  /** An id not yet used keeps the ids distinct. */
  lemma AddStepKeepsIdsDistinct(p: seq<Waypoint>, freshId: int)
    requires DistinctIds(p) && freshId !in Ids(p)
    ensures DistinctIds(AddStep(p, freshId))
  {
    var x := Waypoint(freshId, "");
    var r := AddStep(p, freshId);
    var at := SpliceStart(|p|, |p| - 1);
    forall i, j | 0 <= i < j < |r| ensures r[i].id != r[j].id {
      if i == at {
        assert r[j] == p[j - 1] && Ids(p)[j - 1] == r[j].id;
      } else if j == at {
        assert r[i] == p[i] && Ids(p)[i] == r[i].id;
      } else {
        var i', j' := if i < at then i else i - 1, if j < at then j else j - 1;
        assert r[i] == p[i'] && r[j] == p[j'];
      }
    }
  }

  /** Drop keeps the ids distinct: it only reorders. */
  lemma MoveKeepsIdsDistinct(p: seq<Waypoint>, from: int, to: int)
    requires DistinctIds(p) && 0 <= from < |p| && 0 <= to < |p|
    ensures DistinctIds(Move(p, from, to))
  {
    var rest := RemoveAt(p, from);
    assert DistinctIds(rest) by {
      forall i, j | 0 <= i < j < |rest| ensures rest[i].id != rest[j].id {
        var i', j' := if i < from then i else i + 1, if j < from then j else j + 1;
        assert rest[i] == p[i'] && rest[j] == p[j'];
      }
    }
    var r := Move(p, from, to);
    forall i, j | 0 <= i < j < |r| ensures r[i].id != r[j].id {
      if i == to {
        assert r[j] == rest[j - 1];
        assert rest[j - 1] == p[if j - 1 < from then j - 1 else j];
      } else if j == to {
        assert r[i] == rest[i];
        assert rest[i] == p[if i < from then i else i + 1];
      } else {
        var i', j' := if i < to then i else i - 1, if j < to then j else j - 1;
        assert r[i] == rest[i'] && r[j] == rest[j'];
      }
    }
  }

  /** The submit check `!name || !parcours[0]?.value || !parcours[last]?.value`, on the
      values: the name, the start and the destination must be non-empty (no trimming). */
  predicate RequiredFilled(name: string, values: seq<string>) {
    name != "" && |values| >= 1 && values[0] != "" && values[|values| - 1] != ""
  }

  /** Empty steps never block a submission: adding one, or removing or emptying an interior
      one, leaves the check as it was. */
  lemma StepsDoNotMatter(name: string, values: seq<string>, index: int, value: string)
    requires |values| >= 2
    ensures RequiredFilled(name, InsertBeforeLast(values, "")) == RequiredFilled(name, values)
    ensures 0 < index < |values| - 1 ==>
      RequiredFilled(name, RemoveStep(values, index)) == RequiredFilled(name, values)
    ensures 0 < index < |values| - 1 ==>
      RequiredFilled(name, values[index := value]) == RequiredFilled(name, values)
  {
    InsertBeforeLastShape(values, "");
    RemoveStepShape(values, index);
  }

  /** White space counts as filled in: there is no trimming. */
  lemma NoTrimming()
    ensures RequiredFilled(" ", [" ", "", " "])
    ensures !RequiredFilled("Trip", ["Paris", ""])
  {
  }

  /** The bundled `handlePrepareReturn`: reversed route, one return suffix on the name, mode
      and current location kept. */
  function PrepareReturn<W>(r: Request<W>, lang: Language): (q: Request<W>)
    ensures q.transportMode == r.transportMode && q.currentLocation == r.currentLocation
    ensures |q.parcours| == |r.parcours|
    ensures forall i :: 0 <= i < |r.parcours| ==> q.parcours[i] == r.parcours[|r.parcours| - 1 - i]
    ensures var t := Sep + ReturnTripSuffix(lang);
      && |t| <= |q.name| <= |r.name| + |t| && q.name[|q.name| - |t|..] == t
      && q.name[..|q.name| - |t|] == r.name[..|q.name| - |t|]
  {
    r.(name := ReturnName(r.name, lang), parcours := Reversed(r.parcours))
  }

  /** Preparing the return twice restores the original route order and gives the same name as
      preparing it once. */
  lemma PrepareReturnTwice<W>(r: Request<W>, lang: Language)
    ensures PrepareReturn(PrepareReturn(r, lang), lang).parcours == r.parcours
    ensures PrepareReturn(PrepareReturn(r, lang), lang).name == PrepareReturn(r, lang).name
    ensures PrepareReturn(r, lang).transportMode == r.transportMode
    ensures PrepareReturn(r, lang).currentLocation == r.currentLocation
    ensures multiset(PrepareReturn(r, lang).parcours) == multiset(r.parcours)
  {
    ReversedReversed(r.parcours);
    ReversedMultiset(r.parcours);
    ReturnNameTwice(r.name, lang, lang);
  }

  // ---------------------------------------------------------------- standalone revision

  /** `newParcours[index] = value` on a copy. */
  function ChangeValueStandalone(p: seq<string>, index: int, value: string): (r: seq<string>)
    requires 0 <= index < |p|
    ensures |r| == |p| && r[index] == value
    ensures forall i :: 0 <= i < |p| && i != index ==> r[i] == p[i]
  {
    p[index := value]
  }

  /** `splice(length - 1, 0, '')`. */
  function AddStepStandalone(p: seq<string>): (r: seq<string>)
    ensures |r| == |p| + 1
    ensures p != [] ==> r[|p| - 1] == "" && r[|p|] == p[|p| - 1]
    ensures |p| >= 2 ==> r[0] == p[0]
  {
    InsertBeforeLast(p, "")
  }

  /** The two revisions edit the values alike. */
  lemma RevisionsAgree(p: seq<Waypoint>, index: int, value: string, freshId: int)
    ensures 0 <= index < |p| ==>
      Values(ChangeValue(p, index, value)) == ChangeValueStandalone(Values(p), index, value)
    ensures Values(AddStep(p, freshId)) == AddStepStandalone(Values(p))
    ensures Values(RemoveStep(p, index)) == RemoveStep(Values(p), index)
  {
    AddStepValues(p, freshId);
    RemoveStepValues(p, index);
  }

  lemma AddStepValues(p: seq<Waypoint>, freshId: int)
    ensures Values(AddStep(p, freshId)) == AddStepStandalone(Values(p))
  {
    var at := SpliceStart(|p|, |p| - 1);
    ValuesAppend(p[..at] + [Waypoint(freshId, "")], p[at..]);
    ValuesAppend(p[..at], [Waypoint(freshId, "")]);
    assert Values(p[..at]) == Values(p)[..at];
    assert Values(p[at..]) == Values(p)[at..];
  }

  lemma RemoveStepValues(p: seq<Waypoint>, index: int)
    ensures Values(RemoveStep(p, index)) == RemoveStep(Values(p), index)
  {
    if |p| > 2 && 0 <= index < |p| {
      ValuesAppend(p[..index], p[index + 1..]);
      assert Values(p[..index]) == Values(p)[..index];
      assert Values(p[index + 1..]) == Values(p)[index + 1..];
    }
  }

  /** The standalone `handlePrepareReturn`: it strips only the French and English suffixes. */
  function PrepareReturnStandalone(r: Request<string>, lang: Language): (q: Request<string>)
    ensures q.transportMode == r.transportMode && q.currentLocation == r.currentLocation
    ensures |q.parcours| == |r.parcours|
    ensures forall i :: 0 <= i < |r.parcours| ==> q.parcours[i] == r.parcours[|r.parcours| - 1 - i]
    ensures var t := Sep + ReturnTripSuffix(lang);
      && |t| <= |q.name| <= |r.name| + |t| && q.name[|q.name| - |t|..] == t
      && q.name[..|q.name| - |t|] == r.name[..|q.name| - |t|]
  {
    r.(name := ReturnNameStandalone(r.name, lang), parcours := Reversed(r.parcours))
  }

  /** Twice in German, Italian or Dutch, the standalone form appends a second suffix. */
  lemma PrepareReturnStandaloneTwice(r: Request<string>, lang: Language)
    ensures PrepareReturnStandalone(PrepareReturnStandalone(r, lang), lang).parcours == r.parcours
    ensures lang == Fr || lang == En ==>
      PrepareReturnStandalone(PrepareReturnStandalone(r, lang), lang).name == PrepareReturnStandalone(r, lang).name
    ensures lang == De || lang == It || lang == Nl ==>
      PrepareReturnStandalone(PrepareReturnStandalone(r, lang), lang).name
        == PrepareReturnStandalone(r, lang).name + Sep + ReturnTripSuffix(lang)
  {
    ReversedReversed(r.parcours);
    if lang == Fr || lang == En {
      StandaloneTwiceFrEn(r.name, lang);
    } else {
      StandaloneTwiceAccumulates(r.name, lang);
    }
  }

  // ---------------------------------------------------------------- form state

  /** The form's own state: the row being dragged and the validation message. */
  class FormState {
    var draggedIndex: Option<int>
    var error: Option<string>

    constructor()
      ensures draggedIndex == None && error == None
    {
      draggedIndex := None;
      error := None;
    }

    /** `handleDragStart`: any row can be picked up. */
    method DragStart(index: int)
      modifies this
      ensures draggedIndex == Some(index) && error == old(error)
    {
      draggedIndex := Some(index);
    }

    /** `handleDragEnd`. */
    method DragEnd()
      modifies this
      ensures draggedIndex == None && error == old(error)
    {
      draggedIndex := None;
    }

    /** `handleDrop`: the new route to pass to `onChange`, or `None` when nothing was dragged or
        the row was dropped on itself. The drag ends either way. */
    method Drop<W>(parcours: seq<W>, dropIndex: int) returns (changed: Option<seq<W>>)
      requires draggedIndex.Some? ==> 0 <= draggedIndex.value < |parcours|
      requires 0 <= dropIndex < |parcours|
      modifies this
      ensures draggedIndex == None && error == old(error)
      ensures changed.None? <==> old(draggedIndex).None? || old(draggedIndex) == Some(dropIndex)
      ensures changed.Some? ==> changed.value == Move(parcours, old(draggedIndex).value, dropIndex)
      ensures changed.Some? ==> multiset(changed.value) == multiset(parcours)
      ensures changed.Some? ==> changed.value[dropIndex] == parcours[old(draggedIndex).value]
    {
      if draggedIndex.None? || draggedIndex == Some(dropIndex) {
        draggedIndex := None;
        return None;
      }
      var from := draggedIndex.value;
      MoveProperties(parcours, from, dropIndex);
      changed := Some(Move(parcours, from, dropIndex));
      draggedIndex := None;
    }

    /** `handleSubmit`: whether `onGenerate` is called, with the message set or cleared. */
    method Submit(name: string, values: seq<string>, lang: Language) returns (accepted: bool)
      modifies this
      ensures accepted <==> RequiredFilled(name, values)
      ensures error == (if accepted then None else Some(FormError(lang)))
      ensures draggedIndex == old(draggedIndex)
    {
      if !RequiredFilled(name, values) {
        error := Some(FormError(lang));
        return false;
      }
      error := None;
      return true;
    }
  }
}
