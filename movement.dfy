/** The pure part of moving the read pointer, shared by
    lib/systemd/journal/navigable.rb and lib/systemd/journal/navigation.rb:
    how a return code becomes a result, how a signed offset becomes a skip,
    and which library call each seek target selects. */
module Movement {
  import opened Outcomes
  import opened Native

  /** A Ruby `Time`, in microseconds since the epoch. */
  datatype Time = Time(epochUsec: int)

  /** `Time#to_i`: whole seconds since the epoch, rounded down. */
  function ToI(t: Time): int {
    t.epochUsec / 1_000_000
  }

  /** The argument of `seek`: any Ruby object, of which these kinds matter. */
  datatype Where =
    | Symbol(name: string)
    | TimeArg(time: Time)
    | StringArg(text: string)
    | Boolean(b: bool)
    | OtherObject

  /** `where.to_i * 1_000_000`: the microsecond timestamp passed to the
      realtime seek, which keeps whole seconds and drops the rest. */
  function RealtimeUsec(t: Time): (usec: int)
    ensures usec % 1_000_000 == 0
    ensures usec <= t.epochUsec < usec + 1_000_000
  {
    ToI(t) * 1_000_000
  }

  /** `raise JournalError, rc if rc < 0; rc > 0`: the result of `move_next`
      and `move_previous`. */
  function Flag(rc: int): (r: Outcome<bool>)
    ensures r.Raised? <==> rc < 0
    ensures r.Raised? ==> r.error == JournalError(rc)
    ensures r.Returned? ==> (r.value <==> rc > 0)
    ensures !r.ReturnedNil?
  {
    if rc < 0 then Raised(JournalError(rc)) else Returned(rc > 0)
  }

  /** `raise JournalError, rc if rc < 0; rc`: the result of the skip moves,
      the number of entries actually moved. */
  function Count(rc: int): (r: Outcome<nat>)
    ensures r.Raised? <==> rc < 0
    ensures r.Raised? ==> r.error == JournalError(rc)
    ensures r.Returned? ==> r.value == rc
    ensures !r.ReturnedNil?
  {
    if rc < 0 then Raised(JournalError(rc)) else Returned(rc)
  }

  /** How far, and in which direction, a skip request asks to move. */
  function Displacement(req: Request): int
    requires req.NextSkip? || req.PreviousSkip?
  {
    if req.NextSkip? then req.amount else -req.amount
  }

  /** `move(offset)`: a forward skip for a positive offset, otherwise a
      backward skip by the negated offset (so `move(0)` is a backward skip of
      zero entries). */
  function Route(offset: int): (req: Request)
    ensures req.NextSkip? || req.PreviousSkip?
    ensures req.NextSkip? <==> offset > 0
    ensures req.amount >= 0 && Displacement(req) == offset
  {
    if offset > 0 then NextSkip(offset) else PreviousSkip(-offset)
  }

  /** The library call `seek(where)` makes, or `None` when it raises
      `ArgumentError`. */
  function SeekRequest(where: Where): (r: Option<Request>)
    ensures where == Symbol("head") || where == Symbol("start") ==> r == Some(SeekHead)
    ensures where == Symbol("tail") || where == Symbol("end") ==> r == Some(SeekTail)
    ensures where.TimeArg? ==> r == Some(SeekRealtime(RealtimeUsec(where.time)))
    ensures where.StringArg? ==> r == Some(SeekCursor(where.text))
    ensures r.None? <==> !(where in {Symbol("head"), Symbol("start"), Symbol("tail"), Symbol("end")} ||
                          where.TimeArg? || where.StringArg?)
  {
    if where == Symbol("head") || where == Symbol("start") then Some(SeekHead)
    else if where == Symbol("tail") || where == Symbol("end") then Some(SeekTail)
    else if where.TimeArg? then Some(SeekRealtime(RealtimeUsec(where.time)))
    else if where.StringArg? then Some(SeekCursor(where.text))
    else None
  }

  /** `raise JournalError, rc if rc < 0; true`: the result of a seek call. */
  function SeekResult(rc: int): (r: Outcome<bool>)
    ensures r.Raised? <==> rc < 0
    ensures r.Raised? ==> r.error == JournalError(rc)
    ensures r.Returned? ==> r.value
    ensures !r.ReturnedNil?
  {
    if rc < 0 then Raised(JournalError(rc)) else Returned(true)
  }

  /** `raise JournalErrornew(rc) if rc < 0; true`, as written: the misspelt
      constructor makes every failing seek raise `NoMethodError`. */
  function MisspeltSeekResult(rc: int): (r: Outcome<bool>)
    ensures r.Raised? <==> rc < 0
    ensures r.Raised? ==> r.error == NoMethodError("JournalErrornew")
    ensures r.Returned? ==> r.value
    ensures !r.ReturnedNil?
  {
    if rc < 0 then Raised(NoMethodError("JournalErrornew")) else Returned(true)
  }

  /** A failing seek loses its return code when the constructor is misspelt,
      where the intended result carries it. */
  lemma MisspeltSeekLosesCode(rc: int)
    requires rc < 0
    ensures MisspeltSeekResult(rc) != SeekResult(rc)
    ensures !MisspeltSeekResult(rc).error.JournalError?
  {
  }
}
