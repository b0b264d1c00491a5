/**
  A drag gesture as the board state sees it: a stream of drag-over events and
  drag-end events, each replacing the whole board with the handler's result.
 */
module Gesture {

  import opened Options
  import opened Boards
  import opened Preview
  import opened Commit

  /** Of the pointer's displacement since the drag began, only whether it is downwards matters, so it is a flag. */
  datatype Event =
    | DragOverEvent(activeId: string, overId: Option<string>, belowStart: bool)
    | DragEndEvent(activeId: string, overId: Option<string>)

  /** `None` when the event reaches the unmodelled library behaviour. */
  function Apply(b: Board, e: Event): (r: Option<Board>)
    ensures e.DragOverEvent? ==> r.Some?
    ensures r.Some? ==> SameShape(b, r.value)
  {
    match e
    case DragOverEvent(a, o, below) => Some(DragOver(b, a, o, below))
    case DragEndEvent(a, o) => DragEnd(b, a, o)
  }

  /** Successive whole-board replacements, one per event. */
  function Run(b: Board, events: seq<Event>): (r: Option<Board>)
    ensures (forall k :: 0 <= k < |events| ==> events[k].DragOverEvent?) ==> r.Some?
    ensures r.Some? ==> SameShape(b, r.value)
    decreases |events|
  {
    if |events| == 0 then Some(b)
    else
      match Apply(b, events[0])
      case None => None
      case Some(next) => Run(next, events[1..])
  }

  /** One event on a well-formed board keeps its cards, its columns and its well-formedness. */
  lemma ApplyKeepsCards(b: Board, e: Event)
    requires WellFormed(b) && Apply(b, e).Some?
    ensures WellFormed(Apply(b, e).value)
    ensures SameShape(b, Apply(b, e).value)
    ensures multiset(BoardCards(Apply(b, e).value)) == multiset(BoardCards(b))
  {
    match e
    case DragOverEvent(a, o, below) =>
      PreviewKeepsCards(b, a, o, below);
    case DragEndEvent(a, o) =>
      CommitKeepsCards(b, a, o);
  }

  /**
    Every sequence of previews and commits on a well-formed board keeps the
    same cards (so the same card ids, each once), the same columns in the same
    order, and a well-formed board.
   */
  lemma {:induction false} GestureKeepsCards(b: Board, events: seq<Event>)
    requires WellFormed(b)
    ensures Run(b, events).Some? ==>
      && WellFormed(Run(b, events).value)
      && SameShape(b, Run(b, events).value)
      && multiset(BoardCards(Run(b, events).value)) == multiset(BoardCards(b))
      && multiset(BoardIds(Run(b, events).value)) == multiset(BoardIds(b))
    decreases |events|
  {
    if |events| > 0 && Apply(b, events[0]).Some? {
      var next := Apply(b, events[0]).value;
      ApplyKeepsCards(b, events[0]);
      GestureKeepsCards(next, events[1..]);
      assert Run(b, events) == Run(next, events[1..]);
      if Run(b, events).Some? {
        KeepsWellFormed(b, Run(b, events).value);
      }
    }
  }

  /** The first event of a run is applied first. */
  lemma RunFirst(b: Board, e: Event, rest: seq<Event>)
    requires Apply(b, e).Some?
    ensures Run(b, [e] + rest) == Run(Apply(b, e).value, rest)
  {
    assert ([e] + rest)[0] == e && ([e] + rest)[1..] == rest;
  }

  /**
    A drag-over event delivered twice in a row has the same effect as once, so
    repeated firing during a gesture does not drift the card.
   */
  lemma RepeatedPreviewCollapses(b: Board, e: Event, rest: seq<Event>)
    requires WellFormed(b) && e.DragOverEvent?
    ensures Run(b, [e, e] + rest) == Run(b, [e] + rest)
  {
    var next := DragOver(b, e.activeId, e.overId, e.belowStart);
    PreviewIdempotent(b, e.activeId, e.overId, e.belowStart);
    assert [e, e] + rest == [e] + ([e] + rest);
    RunFirst(b, e, [e] + rest);
    RunFirst(next, e, rest);
    RunFirst(b, e, rest);
  }
}
