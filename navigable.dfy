/** lib/systemd/journal/navigable.rb: moving the read pointer and seeking,
    with the periodic reopen that bounds the library's memory use. Every move
    counts as one call; once the count reaches the `auto_reopen` threshold the
    journal captures its cursor, closes, reopens with the options it was opened
    with, reapplies its filter, seeks back to the cursor and resynchronises
    with a zero-length forward skip. */
module Navigable {
  import opened Outcomes
  import opened Native
  import opened Movement

  /** The default threshold `auto_reopen` yields. */
  const IterationsToAutoReopen := 10_000

  /** What one counted move does: its result (the raw non-negative return code
      of the move, `nil`, or an exception), the requests it makes, and the
      call count it leaves. */
  datatype Run = Run(result: Outcome<nat>, events: seq<Event>, count: int)

  /** The requests that restore the journal after the cursor `token` was
      captured, in order, as the library answers them when the first is the
      j-th request: close, open with the original options, filter with the
      same matches, seek to the cursor, skip forward by zero. */
  function RestoreEvents(reply: (nat, Request) -> int, j: nat, token: string,
                         options: Options, matches: Matches): (rs: seq<Event>)
    ensures |rs| == 5
  {
    [ Event(Close, 0),
      Event(Open(options), reply(j + 1, Open(options))),
      Event(Filter(matches), reply(j + 2, Filter(matches))),
      Event(SeekCursor(token), reply(j + 3, SeekCursor(token))),
      Event(NextSkip(0), reply(j + 4, NextSkip(0))) ]
  }

  /** The requests of a complete reopen when the move was the k-th request:
      capture the cursor, then restore with the captured token. */
  function ReopenEvents(reply: (nat, Request) -> int, cursorAt: nat -> string, k: nat,
                        options: Options, matches: Matches): (es: seq<Event>)
    ensures |es| == 6
  {
    [Event(GetCursor, reply(k + 1, GetCursor))] + RestoreEvents(reply, k + 2, cursorAt(k + 1), options, matches)
  }

  /** The failure a restore answered as in `rs` stops at, if any, and how many
      of those requests it makes. */
  function Restoring(rs: seq<Event>): (Option<int>, nat)
    requires |rs| == 5
  {
    if rs[1].rc < 0 then (Some(rs[1].rc), 2)
    else if rs[2].rc < 0 then (Some(rs[2].rc), 3)
    else if rs[3].rc < 0 then (Some(rs[3].rc), 4)
    else if rs[4].rc < 0 then (Some(rs[4].rc), 5)
    else (None, 5)
  }

  /** How a reopen ends: it completes, is abandoned because the cursor could
      not be captured, or fails with the return code of a later step. */
  datatype Reopened = Completed | Abandoned | Failed(code: int)

  /** The end of a reopen whose requests were answered as in `es`, and how
      many of those requests it makes. */
  function Reopening(es: seq<Event>): (Reopened, nat)
    requires |es| == 6
  {
    if es[0].rc < 0 then (Abandoned, 1)
    else
      match Restoring(es[1..])
      case (Some(code), n) => (Failed(code), n + 1)
      case (None, n) => (Completed, 6)
  }

  /** A restore makes the close and the reopen at least, stops at the first
      negative answer and reports it, and completes exactly when no step after
      the close failed. */
  lemma RestoringStops(rs: seq<Event>)
    requires |rs| == 5
    ensures var (failure, n) := Restoring(rs);
      && 2 <= n <= 5
      && (failure.None? ==> n == 5)
      && (failure.Some? ==> failure.value == rs[n - 1].rc < 0)
      && (forall i :: 1 <= i < n - 1 ==> rs[i].rc >= 0)
      && (failure.None? <==> rs[1].rc >= 0 && rs[2].rc >= 0 && rs[3].rc >= 0 && rs[4].rc >= 0)
  {
  }

  /** A reopen is abandoned exactly when capturing the cursor fails, and then
      makes no further request; otherwise it stops at the first failing step
      of the restore, or completes all six requests. */
  lemma ReopeningStops(es: seq<Event>)
    requires |es| == 6
    ensures var (end, n) := Reopening(es);
      && 1 <= n <= 6
      && (end.Abandoned? <==> es[0].rc < 0)
      && (end.Abandoned? ==> n == 1)
      && (end.Completed? ==> n == 6)
      && (end.Failed? ==> 3 <= n && end.code == es[n - 1].rc < 0)
      && (forall i :: 0 <= i < n - 1 && i != 1 ==> es[i].rc >= 0)
  {
    if es[0].rc >= 0 {
      RestoringStops(es[1..]);
    }
  }

  /** What follows a successful move: whether a reopen ran and how it ended,
      the requests it made and the call count it leaves. */
  datatype Aftermath = Aftermath(reopen: Option<Reopened>, events: seq<Event>, count: int)

  /** The counting after a successful move that was the k-th request, from
      the call count `count`, when `auto_reopen` yields `threshold`. */
  function AfterMove(reply: (nat, Request) -> int, cursorAt: nat -> string, k: nat,
                     count: int, threshold: Option<int>, options: Options, matches: Matches): Aftermath
  {
    if threshold.None? then Aftermath(None, [], count)
    else if count + 1 < threshold.value then Aftermath(None, [], count + 1)
    else ReopenRun(ReopenEvents(reply, cursorAt, k, options, matches), count + 1)
  }

  /** A reopen answered as in `es`, started with the call count `count`: a
      failure after the capture leaves the count, any other end resets it. */
  function ReopenRun(es: seq<Event>, count: int): Aftermath
    requires |es| == 6
  {
    var (end, n) := Reopening(es);
    Aftermath(Some(end), es[..n], if end.Failed? then count else 0)
  }

  /** The result of `with_auto_reopen`: the move's return code unless a
      reopen was abandoned (`nil`) or failed (raised). */
  function Kept(rc: nat, reopen: Option<Reopened>): Outcome<nat> {
    match reopen
    case Some(Abandoned) => ReturnedNil
    case Some(Failed(code)) => Raised(JournalError(code))
    case _ => Returned(rc)
  }

  /** `with_auto_reopen { move }` when the move `req` is the k-th request, the
      call count is `count` and `auto_reopen` yields `threshold`. */
  function AutoReopen(reply: (nat, Request) -> int, cursorAt: nat -> string, k: nat, req: Request,
                      count: int, threshold: Option<int>, options: Options, matches: Matches): (run: Run)
  {
    var rc := reply(k, req);
    if rc < 0 then Run(Raised(JournalError(rc)), [Event(req, rc)], count)
    else
      var after := AfterMove(reply, cursorAt, k, count, threshold, options, matches);
      Run(Kept(rc, after.reopen), [Event(req, rc)] + after.events, after.count)
  }

  // The laws of the reopen protocol, for every library, move and count.

  /** The move runs first; when it raises, nothing else is requested and the
      count is not incremented. */
  lemma MoveRunsFirst(reply: (nat, Request) -> int, cursorAt: nat -> string, k: nat, req: Request,
                      count: int, threshold: Option<int>, options: Options, matches: Matches)
    ensures var run := AutoReopen(reply, cursorAt, k, req, count, threshold, options, matches);
      1 <= |run.events| && run.events[0] == Event(req, reply(k, req)) &&
      (reply(k, req) < 0 ==> run == Run(Raised(JournalError(reply(k, req))), run.events[..1], count))
  {
  }

  /** Without `auto_reopen` the count is never touched and nothing but the
      move is requested. */
  lemma CountOnlyWithAutoReopen(reply: (nat, Request) -> int, cursorAt: nat -> string, k: nat,
                                req: Request, count: int, options: Options, matches: Matches)
    ensures var run := AutoReopen(reply, cursorAt, k, req, count, None, options, matches);
      run.count == count && |run.events| == 1
  {
  }

  /** A normal return leaves the count either one higher and still below the
      threshold, or reset to zero; so a count that starts in [0, threshold)
      stays there. */
  lemma CountStaysBelowThreshold(reply: (nat, Request) -> int, cursorAt: nat -> string, k: nat,
                                 req: Request, count: int, threshold: int, options: Options,
                                 matches: Matches)
    ensures var run := AutoReopen(reply, cursorAt, k, req, count, Some(threshold), options, matches);
      !run.result.Raised? ==>
        (run.count == 0 || run.count == count + 1 < threshold) &&
        (0 <= count < threshold ==> 0 <= run.count < threshold)
  {
  }

  /** A reopen starts exactly when the move succeeded and the incremented count
      reached the threshold, and its requests are a prefix of the fixed order
      capture, close, open, filter, seek, zero skip, cut at the first failure. */
  lemma ReopenOrder(reply: (nat, Request) -> int, cursorAt: nat -> string, k: nat, req: Request,
                    count: int, threshold: Option<int>, options: Options, matches: Matches)
    ensures var run := AutoReopen(reply, cursorAt, k, req, count, threshold, options, matches);
      var es := ReopenEvents(reply, cursorAt, k, options, matches);
      |run.events| <= 7 &&
      run.events == run.events[..1] + es[..|run.events| - 1] &&
      (forall i :: 1 <= i < |run.events| - 1 ==> run.events[i].rc >= 0 || run.events[i].request.Close?) &&
      (|run.events| > 1 <==> reply(k, req) >= 0 && threshold.Some? && count + 1 >= threshold.value)
  {
  }

  /** A complete reopen makes all six requests, seeks to the cursor captured
      in the same reopen, resets the count and returns the move's result. */
  lemma CompleteReopen(reply: (nat, Request) -> int, cursorAt: nat -> string, k: nat, req: Request,
                       count: int, threshold: Option<int>, options: Options, matches: Matches)
    ensures var run := AutoReopen(reply, cursorAt, k, req, count, threshold, options, matches);
      run.result.Returned? ==>
        run.result.value == reply(k, req) &&
        (|run.events| > 1 ==>
          |run.events| == 7 && run.count == 0 &&
          run.events[2] == Event(Close, 0) && run.events[3].request == Open(options) &&
          run.events[4].request == Filter(matches) &&
          run.events[5].request == SeekCursor(cursorAt(k + 1)) &&
          run.events[6].request == NextSkip(0))
  {
  }

  /** A cursor that cannot be captured abandons the reopen: nothing is closed,
      the count is reset and the call returns `nil` instead of the move's
      result. No other run returns `nil`. */
  lemma AbandonedReopen(reply: (nat, Request) -> int, cursorAt: nat -> string, k: nat, req: Request,
                        count: int, threshold: Option<int>, options: Options, matches: Matches)
    ensures var run := AutoReopen(reply, cursorAt, k, req, count, threshold, options, matches);
      (run.result.ReturnedNil? <==> |run.events| == 2 && run.events[1].rc < 0) &&
      (run.result.ReturnedNil? ==>
        run.count == 0 && run.events[1..] == [Event(GetCursor, reply(k + 1, GetCursor))])
  {
  }

  /** A failure after the capture (reopening, filtering, seeking or the zero
      skip) is raised with its return code, and the count is left at the
      incremented value, at or above the threshold. */
  lemma FailedReopen(reply: (nat, Request) -> int, cursorAt: nat -> string, k: nat, req: Request,
                     count: int, threshold: Option<int>, options: Options, matches: Matches)
    ensures var run := AutoReopen(reply, cursorAt, k, req, count, threshold, options, matches);
      run.result.Raised? && |run.events| > 1 ==>
        threshold.Some? && run.count == count + 1 >= threshold.value &&
        run.events[|run.events| - 1].rc < 0 &&
        run.result.error == JournalError(run.events[|run.events| - 1].rc)
  {
  }

  /** `rc > 0` applied to what the counted move returned. */
  function AsFlag(o: Outcome<nat>): (r: Outcome<bool>)
    ensures r.Raised? <==> o.Raised?
    ensures r.ReturnedNil? <==> o.ReturnedNil?
    ensures r.Raised? ==> r.error == o.error
    ensures r.Returned? ==> (r.value <==> o.value > 0)
  {
    match o
    case Returned(n) => Returned(n > 0)
    case ReturnedNil => ReturnedNil
    case Raised(e) => Raised(e)
  }

  /** The prefixes of five restore requests, appended one at a time. */
  lemma RestorePrefixes(rs: seq<Event>)
    requires |rs| == 5
    ensures forall t :: t + rs[..2] == t + [rs[0]] + [rs[1]]
    ensures forall t :: t + rs[..3] == t + [rs[0]] + [rs[1]] + [rs[2]]
    ensures forall t :: t + rs[..4] == t + [rs[0]] + [rs[1]] + [rs[2]] + [rs[3]]
    ensures forall t :: t + rs[..5] == t + [rs[0]] + [rs[1]] + [rs[2]] + [rs[3]] + [rs[4]]
  {
  }

  lemma AppendAssoc<T>(a: seq<T>, b: seq<T>, c: seq<T>)
    ensures a + b + c == a + (b + c)
  {
  }

  class Journal {
    const native: Backend           // the handle, `@ptr`
    const autoReopen: Option<int>   // what `auto_reopen` yields; None for nil or false
    const reopenOptions: Options    // `@reopen_options`
    const reopenMatches: Matches    // `@reopen_filterable_matches`
    var callCount: int              // `@sd_call_count`

    constructor (native: Backend, autoReopen: Option<int>, options: Options, matches: Matches)
      ensures this.native == native && this.autoReopen == autoReopen
      ensures reopenOptions == options && reopenMatches == matches && callCount == 0
    {
      this.native := native;
      this.autoReopen := autoReopen;
      reopenOptions := options;
      reopenMatches := matches;
      callCount := 0;
    }

    /** The run a counted move `req` makes as the k-th request, from the
        call count `count`. */
    function Protocol(k: nat, count: int, req: Request): Run {
      AutoReopen(native.reply, native.cursorAt, k, req, count, autoReopen, reopenOptions, reopenMatches)
    }

    /** `cursor`: the token of the current position. */
    method Cursor() returns (r: Outcome<string>)
      modifies native`trace
      ensures var rc := native.Reply(old(|native.trace|), GetCursor);
        r == (if rc < 0 then Raised(JournalError(rc)) else Returned(native.cursorAt(old(|native.trace|))))
      ensures native.trace == old(native.trace) + [Event(GetCursor, native.Reply(old(|native.trace|), GetCursor))]
    {
      var rc, token := native.GetCursor();
      if rc < 0 {
        return Raised(JournalError(rc));
      }
      r := Returned(token);
    }

    /** `cursor?(c)`: whether the current entry is the one `c` names. */
    method CursorMatches(c: string) returns (r: Outcome<bool>)
      modifies native`trace, native`data, native`dataPos
      ensures var rc := native.Reply(old(|native.trace|), TestCursor(c));
        r == Flag(rc) && native.trace == old(native.trace) + [Event(TestCursor(c), rc)]
    {
      var rc := native.Call(TestCursor(c));
      if rc < 0 {
        return Raised(JournalError(rc));
      }
      r := Returned(rc > 0);
    }

    /** `move(offset = 1)`: a counted forward skip for a positive offset,
        otherwise a counted backward skip by the negated offset. */
    method Move(offset: int := 1) returns (r: Outcome<nat>)
      modifies this`callCount, native`trace, native`data, native`dataPos
      ensures var run := Protocol(old(|native.trace|), old(callCount), Route(offset));
        r == run.result && callCount == run.count && native.trace == old(native.trace) + run.events
    {
      if offset > 0 {
        r := MoveNextSkip(offset);
      } else {
        r := MovePreviousSkip(-offset);
      }
    }

    method MoveNext() returns (r: Outcome<bool>)
      modifies this`callCount, native`trace, native`data, native`dataPos
      ensures var run := Protocol(old(|native.trace|), old(callCount), Next);
        r == AsFlag(run.result) && callCount == run.count && native.trace == old(native.trace) + run.events
    {
      var n := WithAutoReopen(Next);
      r := AsFlag(n);
    }

    method MoveNextSkip(amount: int) returns (r: Outcome<nat>)
      modifies this`callCount, native`trace, native`data, native`dataPos
      ensures var run := Protocol(old(|native.trace|), old(callCount), NextSkip(amount));
        r == run.result && callCount == run.count && native.trace == old(native.trace) + run.events
    {
      r := WithAutoReopen(NextSkip(amount));
    }

    method MovePrevious() returns (r: Outcome<bool>)
      modifies this`callCount, native`trace, native`data, native`dataPos
      ensures var run := Protocol(old(|native.trace|), old(callCount), Previous);
        r == AsFlag(run.result) && callCount == run.count && native.trace == old(native.trace) + run.events
    {
      var n := WithAutoReopen(Previous);
      r := AsFlag(n);
    }

    method MovePreviousSkip(amount: int) returns (r: Outcome<nat>)
      modifies this`callCount, native`trace, native`data, native`dataPos
      ensures var run := Protocol(old(|native.trace|), old(callCount), PreviousSkip(amount));
        r == run.result && callCount == run.count && native.trace == old(native.trace) + run.events
    {
      r := WithAutoReopen(PreviousSkip(amount));
    }

    /** `seek(where)`: an unknown target raises `ArgumentError` before any call;
        a failing call raises `JournalError`. Seeking is not counted. */
    method Seek(where: Where) returns (r: Outcome<bool>)
      modifies native`trace, native`data, native`dataPos
      ensures SeekRequest(where).None? ==> r == Raised(ArgumentError) && native.trace == old(native.trace)
      ensures SeekRequest(where).Some? ==>
        var rc := native.Reply(old(|native.trace|), SeekRequest(where).value);
        r == SeekResult(rc) && native.trace == old(native.trace) + [Event(SeekRequest(where).value, rc)]
    {
      var req: Request;
      if where == Symbol("head") || where == Symbol("start") {
        req := SeekHead;
      } else if where == Symbol("tail") || where == Symbol("end") {
        req := SeekTail;
      } else if where.TimeArg? {
        req := SeekRealtime(ToI(where.time) * 1_000_000);
      } else if where.StringArg? {
        req := SeekCursor(where.text);
      } else {
        return Raised(ArgumentError);
      }
      var rc := native.Call(req);
      if rc < 0 {
        return Raised(JournalError(rc));
      }
      r := Returned(true);
    }

    /** `with_auto_reopen { move }`, where the block makes the move `req` and
        raises on a negative return code. */
    method WithAutoReopen(req: Request) returns (r: Outcome<nat>)
      requires req.Next? || req.Previous? || req.NextSkip? || req.PreviousSkip?
      modifies this`callCount, native`trace, native`data, native`dataPos
      ensures var run := Protocol(old(|native.trace|), old(callCount), req);
        r == run.result && callCount == run.count && native.trace == old(native.trace) + run.events
    {
      ghost var t0 := native.trace;
      var rc := native.Call(req);
      if rc < 0 {
        return Raised(JournalError(rc));
      }
      var reopen, after := CountAndReopen();
      AppendAssoc(t0, [Event(req, rc)], after.events);
      r := Kept(rc, reopen);
    }

    /** The counting after a successful move: increment the count and, once
        it reaches the threshold, reopen. */
    method CountAndReopen() returns (reopen: Option<Reopened>, ghost after: Aftermath)
      requires |native.trace| >= 1
      modifies this`callCount, native`trace, native`data, native`dataPos
      ensures after == AfterMove(native.reply, native.cursorAt, old(|native.trace|) - 1, old(callCount),
                                 autoReopen, reopenOptions, reopenMatches)
      ensures reopen == after.reopen && callCount == after.count && native.trace == old(native.trace) + after.events
    {
      reopen := None;
      after := Aftermath(None, [], callCount);
      if autoReopen.Some? {
        callCount := callCount + 1;
        after := Aftermath(None, [], callCount);
        if callCount >= autoReopen.value {
          var end := Reopen();
          reopen := Some(end);
          after := Aftermath(reopen, native.trace[|old(native.trace)|..], callCount);
        }
      }
    }

    /** The reopen itself: capture the cursor, and on failure reset the count
        and stop; otherwise restore and reset the count once the restore
        completes. */
    method Reopen() returns (end: Reopened)
      requires |native.trace| >= 1
      modifies this`callCount, native`trace, native`data, native`dataPos
      ensures var after := ReopenRun(ReopenEvents(native.reply, native.cursorAt, old(|native.trace|) - 1,
                                                  reopenOptions, reopenMatches), old(callCount));
        Some(end) == after.reopen && callCount == after.count && native.trace == old(native.trace) + after.events
    {
      ghost var t0 := native.trace;
      ghost var es := ReopenEvents(native.reply, native.cursorAt, |native.trace| - 1,
                                   reopenOptions, reopenMatches);
      var cursor := Cursor();
      if !cursor.Returned? {
        callCount := 0;
        return Abandoned;
      }
      assert es[1..] == RestoreEvents(native.reply, |native.trace|, cursor.value, reopenOptions, reopenMatches);
      var failure := Restore(cursor.value);
      assert native.trace == t0 + es[..Reopening(es).1];
      if failure.Some? {
        return Failed(failure.value);
      }
      callCount := 0;
      end := Completed;
    }

    /** close; initialize(@reopen_options); filter(matches); seek(cursor);
        the uncounted zero skip. Stops at the first step that raises. */
    method Restore(token: string) returns (failure: Option<int>)
      modifies native`trace, native`data, native`dataPos
      ensures var rs := RestoreEvents(native.reply, old(|native.trace|), token, reopenOptions, reopenMatches);
        (failure, |native.trace| - |old(native.trace)|) == Restoring(rs) &&
        native.trace == old(native.trace) + rs[..Restoring(rs).1]
    {
      ghost var t0 := native.trace;
      ghost var rs := RestoreEvents(native.reply, |native.trace|, token, reopenOptions, reopenMatches);
      RestorePrefixes(rs);
      var matches := reopenMatches;
      native.Close();
      var reinit := native.Call(Open(reopenOptions));
      assert native.trace == t0 + [rs[0]] + [rs[1]];
      if reinit < 0 {
        return Some(reinit);
      }
      var filtered := native.Call(Filter(matches));
      assert native.trace == t0 + [rs[0]] + [rs[1]] + [rs[2]];
      if filtered < 0 {
        return Some(filtered);
      }
      assert SeekRequest(StringArg(token)) == Some(SeekCursor(token));
      var sought := Seek(StringArg(token));
      assert native.trace == t0 + [rs[0]] + [rs[1]] + [rs[2]] + [rs[3]];
      if sought.Raised? {
        return Some(sought.error.code);
      }
      var resync := native.Call(NextSkip(0));
      assert native.trace == t0 + [rs[0]] + [rs[1]] + [rs[2]] + [rs[3]] + [rs[4]];
      if resync < 0 {
        return Some(resync);
      }
      failure := None;
    }
  }
}
