/** The enumeration cursor behind the report: ma_seq_start and ma_seq_next.
    Both depend only on the position and on the number of records, and both
    hand back a record by its index, so they are modelled on indices. */
module Cursor {
  import opened Wrappers

  /** The outcome of ma_seq_next: the record it yields (None for NULL) and
      the position it leaves behind in *pos. */
  datatype Step = Step(item: Option<nat>, pos: nat)

  /** ma_seq_start: the record at position `pos`, or NULL once `pos` reaches the count. */
  function Start(count: nat, pos: nat): (r: Option<nat>)
    ensures r.Some? <==> pos < count
    ensures r.Some? ==> r.value == pos
  {
    if pos >= count then None else Some(pos)
  }

  /** ma_seq_next: the record after `pos`, advancing the position to it, or
      NULL with the position left where it was. */
  function Next(count: nat, pos: nat): (r: Step)
    ensures r.item.Some? <==> pos + 1 < count
    ensures r.item.Some? ==> r.item.value == pos + 1 && r.pos == pos + 1
    ensures r.item.None? ==> r.pos == pos
  {
    if pos + 1 >= count then Step(None, pos) else Step(Some(pos + 1), pos + 1)
  }

  /** The records a reader is handed when it starts at `pos`: start, then
      next after each record until NULL. */
  function Walk(count: nat, pos: nat): seq<nat> {
    match Start(count, pos)
    case None => []
    case Some(i) => [i] + Follow(count, i)
  }

  /** The records handed out by repeated calls of next after record `pos`. */
  function Follow(count: nat, pos: nat): seq<nat>
    decreases count - pos
  {
    var step := Next(count, pos);
    match step.item
    case None => []
    case Some(i) => [i] + Follow(count, step.pos)
  }

  /** After record `pos`, next hands out pos + 1 .. count - 1, each once, in order. */
  lemma {:induction false} FollowVisits(count: nat, pos: nat)
    ensures |Follow(count, pos)| == if pos + 1 < count then count - pos - 1 else 0
    ensures forall k :: 0 <= k < |Follow(count, pos)| ==> Follow(count, pos)[k] == pos + 1 + k
    decreases count - pos
  {
    if pos + 1 < count {
      FollowVisits(count, pos + 1);
    }
  }

  /** A read starting at `pos` is handed records pos .. count - 1, each
      exactly once and in index order, and nothing when pos >= count. */
  lemma WalkVisits(count: nat, pos: nat)
    ensures |Walk(count, pos)| == if pos < count then count - pos else 0
    ensures forall k :: 0 <= k < |Walk(count, pos)| ==> Walk(count, pos)[k] == pos + k
  {
    FollowVisits(count, pos);
  }

  /** A read from the beginning lists every record 0 .. count - 1 once, in
      order; with no records it lists nothing. */
  lemma WalkFromStart(count: nat)
    ensures |Walk(count, 0)| == count
    ensures forall k :: 0 <= k < count ==> Walk(count, 0)[k] == k
    ensures count == 0 ==> Walk(count, 0) == []
  {
    WalkVisits(count, 0);
  }
}
