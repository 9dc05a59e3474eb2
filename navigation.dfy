/** lib/systemd/journal/navigation.rb: moving the read pointer and seeking,
    without the automatic reopen. The methods act on the journal handle `j`. */
module Navigation {
  import opened Outcomes
  import opened Native
  import opened Movement

  /** `move(offset)`: a forward skip for a positive offset, else a backward one. */
  method Move(j: Backend, offset: int) returns (r: Outcome<nat>)
    modifies j`trace, j`data, j`dataPos
    ensures var rc := old(j.Answer(Route(offset)));
      r == Count(rc) && j.trace == old(j.trace) + [Event(Route(offset), rc)]
  {
    if offset > 0 {
      r := MoveNextSkip(j, offset);
    } else {
      r := MovePreviousSkip(j, -offset);
    }
  }

  method MoveNext(j: Backend) returns (r: Outcome<bool>)
    modifies j`trace, j`data, j`dataPos
    ensures var rc := old(j.Answer(Next));
      r == Flag(rc) && j.trace == old(j.trace) + [Event(Next, rc)]
  {
    var rc := j.Call(Next);
    if rc < 0 {
      return Raised(JournalError(rc));
    }
    r := Returned(rc > 0);
  }

  method MoveNextSkip(j: Backend, amount: int) returns (r: Outcome<nat>)
    modifies j`trace, j`data, j`dataPos
    ensures var rc := old(j.Answer(NextSkip(amount)));
      r == Count(rc) && j.trace == old(j.trace) + [Event(NextSkip(amount), rc)]
  {
    var rc := j.Call(NextSkip(amount));
    if rc < 0 {
      return Raised(JournalError(rc));
    }
    r := Returned(rc);
  }

  method MovePrevious(j: Backend) returns (r: Outcome<bool>)
    modifies j`trace, j`data, j`dataPos
    ensures var rc := old(j.Answer(Previous));
      r == Flag(rc) && j.trace == old(j.trace) + [Event(Previous, rc)]
  {
    var rc := j.Call(Previous);
    if rc < 0 {
      return Raised(JournalError(rc));
    }
    r := Returned(rc > 0);
  }

  method MovePreviousSkip(j: Backend, amount: int) returns (r: Outcome<nat>)
    modifies j`trace, j`data, j`dataPos
    ensures var rc := old(j.Answer(PreviousSkip(amount)));
      r == Count(rc) && j.trace == old(j.trace) + [Event(PreviousSkip(amount), rc)]
  {
    var rc := j.Call(PreviousSkip(amount));
    if rc < 0 {
      return Raised(JournalError(rc));
    }
    r := Returned(rc);
  }

  /** `seek(where)`: an unknown target raises `ArgumentError` before any call;
      a failing call raises `NoMethodError`, because the error class is
      misspelt. */
  method Seek(j: Backend, where: Where) returns (r: Outcome<bool>)
    modifies j`trace, j`data, j`dataPos
    ensures SeekRequest(where).None? ==> r == Raised(ArgumentError) && j.trace == old(j.trace)
    ensures SeekRequest(where).Some? ==>
      var rc := old(j.Answer(SeekRequest(where).value));
      r == MisspeltSeekResult(rc) && j.trace == old(j.trace) + [Event(SeekRequest(where).value, rc)]
  {
    var req: Request;
    if where == Symbol("head") || where == Symbol("start") {
      req := SeekHead;
    } else if where == Symbol("tail") || where == Symbol("end") {
      req := SeekTail;
    } else if where.TimeArg? {
      req := SeekRealtime(ToI(where.time) * 1_000_000);
    } else if where.StringArg? {
      req := SeekCursor(where.text);
    } else {
      return Raised(ArgumentError);
    }
    var rc := j.Call(req);
    if rc < 0 {
      return Raised(NoMethodError("JournalErrornew"));
    }
    r := Returned(true);
  }
}
