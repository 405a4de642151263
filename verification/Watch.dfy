/**
 src/main.rs, `watch` and `watch_json`: two handlers over the same event stream, each with its own
 interface-name map. Filtering decides what is printed, never what is remembered.
 */
module Watch {
  import opened Words

  /** Fields that only appear in the output are one opaque detail. */
  datatype Event =
    | Link(removed: bool, interfaceIndex: int, name: Option<string>, up: bool)
    | Address(removed: bool, interfaceIndex: int, detail: string)
    | Route(removed: bool, routeIndex: Option<int>, detail: string)
    | Neighbor(removed: bool, interfaceIndex: int, detail: string)

  datatype WatchFilter = LinkOnly | AddressOnly | RouteOnly | NeighborOnly
  {
    predicate Matches(event: Event) {
      match (this, event)
      case (LinkOnly, Link(_, _, _, _)) => true
      case (AddressOnly, Address(_, _, _)) => true
      case (RouteOnly, Route(_, _, _)) => true
      case (NeighborOnly, Neighbor(_, _, _)) => true
      case _ => false
    }
  }

  predicate Emits(filter: Option<WatchFilter>, event: Event) {
    filter.None? || filter.value.Matches(event)
  }

  type InterfaceNames = map<int, string>

  function Get(names: InterfaceNames, index: int): Option<string> {
    if index in names then Some(names[index]) else None
  }

  /** `format!("ifindex {index}")` is a parameter. */
  type Fallback = int -> string

  function InterfaceLabel(names: InterfaceNames, fallback: Fallback, index: int): string {
    if index in names then names[index] else fallback(index)
  }

  /** An output line or record: the event and the interface labels printed with it. */
  datatype Output = Output(event: Event, shown: Option<string>)

  // ---- What the two handlers remember and print ----

  /** The names after an event: a link's new name is remembered, a removed link is forgotten. */
  function Remember(names: InterfaceNames, event: Event): InterfaceNames {
    match event
    case Link(removed, index, name, _) =>
      if removed then names - {index} else if name.Some? then names[index := name.value] else names
    case _ => names
  }

  function Remembered(names: InterfaceNames, events: seq<Event>): InterfaceNames
    decreases events
  {
    if events == [] then names else Remembered(Remember(names, events[0]), events[1..])
  }

  function Or(a: Option<string>, b: Option<string>): Option<string> {
    if a.Some? then a else b
  }

  function TextLabel(names: InterfaceNames, fallback: Fallback, event: Event): Option<string> {
    match event
    case Link(_, index, name, _) =>
      var known := Or(name, Get(names, index));
      Some(if known.Some? then known.value else fallback(index))
    case Address(_, index, _) => Some(InterfaceLabel(names, fallback, index))
    case Route(_, index, _) => if index.Some? then Some(InterfaceLabel(names, fallback, index.value)) else None
    case Neighbor(_, index, _) => Some(InterfaceLabel(names, fallback, index))
  }

  function JsonLabel(names: InterfaceNames, fallback: Fallback, event: Event): Option<string> {
    match event
    case Link(_, index, name, _) => Or(name, Get(names, index))
    case Address(_, index, _) => Some(InterfaceLabel(names, fallback, index))
    case Route(_, _, _) => None
    case Neighbor(_, index, _) => Some(InterfaceLabel(names, fallback, index))
  }

  type Labeller = (InterfaceNames, Event) -> Option<string>

  function TextLabels(fallback: Fallback): Labeller {
    (names: InterfaceNames, event: Event) => TextLabel(names, fallback, event)
  }

  function JsonLabels(fallback: Fallback): Labeller {
    (names: InterfaceNames, event: Event) => JsonLabel(names, fallback, event)
  }

  /** Everything a handler would print without a filter. */
  function Unfiltered(labeller: Labeller, names: InterfaceNames, events: seq<Event>): (outputs: seq<Output>)
    ensures |outputs| == |events|
    decreases events
  {
    if events == [] then []
    else [Output(events[0], labeller(names, events[0]))] + Unfiltered(labeller, Remember(names, events[0]), events[1..])
  }

  /** The subsequence of outputs whose events pass the filter. */
  function Passing(filter: Option<WatchFilter>, outputs: seq<Output>): seq<Output> {
    if outputs == [] then []
    else (if Emits(filter, outputs[0].event) then [outputs[0]] else []) + Passing(filter, outputs[1..])
  }

  lemma Progress(labeller: Labeller, filter: Option<WatchFilter>, names: InterfaceNames, events: seq<Event>, i: nat,
                 printed: seq<Output>)
    requires i < |events|
    ensures var event := events[i];
            && printed + Passing(filter, Unfiltered(labeller, names, events[i..]))
               == (if Emits(filter, event) then printed + [Output(event, labeller(names, event))] else printed)
                  + Passing(filter, Unfiltered(labeller, Remember(names, event), events[i + 1..]))
            && Remembered(names, events[i..]) == Remembered(Remember(names, event), events[i + 1..])
  {
    assert events[i..][1..] == events[i + 1..];
  }

  lemma Ending(labeller: Labeller, filter: Option<WatchFilter>, names: InterfaceNames, events: seq<Event>,
               printed: seq<Output>)
    ensures events[0..] == events && events[|events|..] == []
    ensures printed + Passing(filter, Unfiltered(labeller, names, [])) == printed && Remembered(names, []) == names
    ensures [] + Passing(filter, Unfiltered(labeller, names, events))
         == Passing(filter, Unfiltered(labeller, names, events))
  {}

  /** The text handler. It stores a link's old name again when an event carries none. */
  method Watch(filter: Option<WatchFilter>, initial: InterfaceNames, events: seq<Event>, fallback: Fallback)
    returns (printed: seq<Output>, names: InterfaceNames)
    ensures printed == Passing(filter, Unfiltered(TextLabels(fallback), initial, events))
    ensures names == Remembered(initial, events)
  {
    hide Passing, Unfiltered, Remembered;
    ghost var labeller := TextLabels(fallback);
    printed, names := [], initial;
    Ending(labeller, filter, initial, events, []);
    for i := 0 to |events|
      invariant printed + Passing(filter, Unfiltered(labeller, names, events[i..]))
             == Passing(filter, Unfiltered(labeller, initial, events))
      invariant Remembered(names, events[i..]) == Remembered(initial, events)
    {
      Progress(labeller, filter, names, events, i, printed);
      var event := events[i];
      var emit := Emits(filter, event);
      match event {
        case Link(removed, index, eventName, _) =>
          var name := Or(eventName, Get(names, index));
          var text := if name.Some? then name.value else fallback(index);
          if removed {
            if emit {
              printed := printed + [Output(event, Some(text))];
            }
            names := names - {index};
          } else {
            if name.Some? {
              assert eventName.None? ==> names[index := name.value] == names;
              names := names[index := name.value];
            }
            if emit {
              printed := printed + [Output(event, Some(text))];
            }
          }
        case Address(_, index, _) =>
          var text := InterfaceLabel(names, fallback, index);
          if emit {
            printed := printed + [Output(event, Some(text))];
          }
        case Route(_, index, _) =>
          var text := if index.Some? then Some(InterfaceLabel(names, fallback, index.value)) else None;
          if emit {
            printed := printed + [Output(event, text)];
          }
        case Neighbor(_, index, _) =>
          var text := InterfaceLabel(names, fallback, index);
          if emit {
            printed := printed + [Output(event, Some(text))];
          }
      }
    }
    Ending(labeller, filter, names, events, printed);
  }

  /** The JSON handler. It builds every record before it decides whether to print it. */
  method WatchJson(filter: Option<WatchFilter>, initial: InterfaceNames, events: seq<Event>, fallback: Fallback)
    returns (printed: seq<Output>, names: InterfaceNames)
    ensures printed == Passing(filter, Unfiltered(JsonLabels(fallback), initial, events))
    ensures names == Remembered(initial, events)
  {
    hide Passing, Unfiltered, Remembered;
    ghost var labeller := JsonLabels(fallback);
    printed, names := [], initial;
    Ending(labeller, filter, initial, events, []);
    for i := 0 to |events|
      invariant printed + Passing(filter, Unfiltered(labeller, names, events[i..]))
             == Passing(filter, Unfiltered(labeller, initial, events))
      invariant Remembered(names, events[i..]) == Remembered(initial, events)
    {
      Progress(labeller, filter, names, events, i, printed);
      var event := events[i];
      var emit := Emits(filter, event);
      var value: Output;
      match event {
        case Link(removed, index, name, _) =>
          var text := Or(name, Get(names, index));
          if removed {
            names := names - {index};
          } else if name.Some? {
            names := names[index := name.value];
          }
          value := Output(event, text);
        case Address(_, index, _) => value := Output(event, Some(InterfaceLabel(names, fallback, index)));
        case Route(_, _, _) => value := Output(event, None);
        case Neighbor(_, index, _) => value := Output(event, Some(InterfaceLabel(names, fallback, index)));
      }
      if emit {
        printed := printed + [value];
      }
    }
    Ending(labeller, filter, names, events, printed);
  }

  // ---- What the handlers have in common ----

  /** The last thing a history says about an interface: the newest name since its last removal. */
  function LatestName(initial: InterfaceNames, events: seq<Event>, index: int): Option<string> {
    if events == [] then Get(initial, index)
    else
      var earlier, last := events[..|events| - 1], events[|events| - 1];
      if !last.Link? || last.interfaceIndex != index then LatestName(initial, earlier, index)
      else if last.removed then None
      else Or(last.name, LatestName(initial, earlier, index))
  }

  lemma {:induction false} RememberedSnoc(names: InterfaceNames, events: seq<Event>, last: Event)
    ensures Remembered(names, events + [last]) == Remember(Remembered(names, events), last)
    decreases events
  {
    if events == [] {
      assert [last][1..] == [] && [] + [last] == [last];
    } else {
      assert (events + [last])[1..] == events[1..] + [last];
      RememberedSnoc(Remember(names, events[0]), events[1..], last);
    }
  }

  /** After every prefix of a history both handlers know each interface by its latest name, filtered out or not. */
  lemma {:induction false} RemembersLatestName(initial: InterfaceNames, events: seq<Event>, index: int)
    ensures Get(Remembered(initial, events), index) == LatestName(initial, events, index)
  {
    if events == [] {
    } else {
      var earlier, last := events[..|events| - 1], events[|events| - 1];
      assert events == earlier + [last];
      RememberedSnoc(initial, earlier, last);
      RemembersLatestName(initial, earlier, index);
    }
  }

  /** Which name an output is labelled with: that of its interface at its own point of the history. */
  lemma {:induction false} LabelAt(labeller: Labeller, initial: InterfaceNames, events: seq<Event>, i: nat)
    requires i < |events|
    ensures Unfiltered(labeller, initial, events)[i]
         == Output(events[i], labeller(Remembered(initial, events[..i]), events[i]))
    decreases i
  {
    if i == 0 {
      assert events[..0] == [];
    } else {
      LabelAt(labeller, Remember(initial, events[0]), events[1..], i - 1);
      assert events[..i][1..] == events[1..][..i - 1];
    }
  }

  /** Wherever the JSON record has a label, the text line has the same one; an unknown link falls back to its index. */
  lemma LabelsAgree(initial: InterfaceNames, events: seq<Event>, fallback: Fallback, i: nat)
    requires i < |events|
    ensures var text := Unfiltered(TextLabels(fallback), initial, events)[i].shown;
            var json := Unfiltered(JsonLabels(fallback), initial, events)[i].shown;
            && (json.Some? ==> text == json)
            && (events[i].Link? && json.None? ==> text == Some(fallback(events[i].interfaceIndex)))
  {
    LabelAt(TextLabels(fallback), initial, events, i);
    LabelAt(JsonLabels(fallback), initial, events, i);
  }

  // ---- What is printed, and under which name ----

  /** Each filter passes the events of one kind, and no filter passes all. */
  lemma FiltersSelectKinds(event: Event)
    ensures LinkOnly.Matches(event) <==> event.Link?
    ensures AddressOnly.Matches(event) <==> event.Address?
    ensures RouteOnly.Matches(event) <==> event.Route?
    ensures NeighborOnly.Matches(event) <==> event.Neighbor?
    ensures Emits(None, event)
    ensures forall filter: WatchFilter :: Emits(Some(filter), event) <==> filter.Matches(event)
  {}

  /** Filtering keeps an output or drops it, by its event alone, and keeps their order. */
  lemma {:induction false} PassingSnoc(filter: Option<WatchFilter>, outputs: seq<Output>, last: Output)
    ensures Passing(filter, []) == []
    ensures Passing(filter, outputs + [last])
         == Passing(filter, outputs) + if Emits(filter, last.event) then [last] else []
    decreases outputs
  {
    hide Emits;
    var kept := if Emits(filter, last.event) then [last] else [];
    if outputs == [] {
      assert outputs + [last] == [last] && [last][1..] == [];
      assert kept + [] == kept && [] + kept == kept;
    } else {
      assert (outputs + [last])[0] == outputs[0] && (outputs + [last])[1..] == outputs[1..] + [last];
      PassingSnoc(filter, outputs[1..], last);
      var first := if Emits(filter, outputs[0].event) then [outputs[0]] else [];
      assert first + (Passing(filter, outputs[1..]) + kept) == first + Passing(filter, outputs[1..]) + kept;
    }
  }

  lemma {:induction false} NoFilterPassesAll(outputs: seq<Output>)
    ensures Passing(None, outputs) == outputs
  {
    if outputs == [] {
    } else {
      NoFilterPassesAll(outputs[1..]);
      assert outputs == [outputs[0]] + outputs[1..];
    }
  }

  /** The newest name of an interface before the i-th event, or its index in words if it has none. */
  function NameBefore(initial: InterfaceNames, events: seq<Event>, fallback: Fallback, i: nat, index: int): string
    requires i <= |events|
  {
    match LatestName(initial, events[..i], index)
    case Some(name) => name
    case None => fallback(index)
  }

  lemma NamesBefore(initial: InterfaceNames, events: seq<Event>, i: nat)
    requires i <= |events|
    ensures forall index: int ::
              Get(Remembered(initial, events[..i]), index) == LatestName(initial, events[..i], index)
  {
    forall index: int
      ensures Get(Remembered(initial, events[..i]), index) == LatestName(initial, events[..i], index)
    {
      RemembersLatestName(initial, events[..i], index);
    }
  }

  /** A text line shows a link's own name if it has one, and otherwise the newest name of its interface. */
  lemma TextShowsNewestName(initial: InterfaceNames, events: seq<Event>, fallback: Fallback, i: nat)
    requires i < |events|
    ensures var event, shown := events[i], Unfiltered(TextLabels(fallback), initial, events)[i].shown;
            && (event.Link? ==>
                  shown == if event.name.Some? then event.name
                           else Some(NameBefore(initial, events, fallback, i, event.interfaceIndex)))
            && (event.Address? || event.Neighbor? ==>
                  shown == Some(NameBefore(initial, events, fallback, i, event.interfaceIndex)))
            && (event.Route? ==>
                  shown == if event.routeIndex.None? then None
                           else Some(NameBefore(initial, events, fallback, i, event.routeIndex.value)))
  {
    hide Unfiltered, Remembered, LatestName;
    LabelAt(TextLabels(fallback), initial, events, i);
    NamesBefore(initial, events, i);
  }

  /** A JSON record does the same, but leaves a link without a known name and every route unnamed. */
  lemma JsonShowsNewestName(initial: InterfaceNames, events: seq<Event>, fallback: Fallback, i: nat)
    requires i < |events|
    ensures var event, shown := events[i], Unfiltered(JsonLabels(fallback), initial, events)[i].shown;
            && (event.Link? ==>
                  shown == if event.name.Some? then event.name
                           else LatestName(initial, events[..i], event.interfaceIndex))
            && (event.Address? || event.Neighbor? ==>
                  shown == Some(NameBefore(initial, events, fallback, i, event.interfaceIndex)))
            && (event.Route? ==> shown == None)
  {
    hide Unfiltered, Remembered, LatestName;
    LabelAt(JsonLabels(fallback), initial, events, i);
    NamesBefore(initial, events, i);
  }
}
