/** The journal library (libsystemd's sd_journal_* calls) as the binding sees
    it: an opaque handle that answers each request with an integer return
    code. The answers are not computed here: `reply(k, q)` is whatever the
    library returns to the k-th request `q` made on the handle, so every
    property proved about the binding holds for every possible library.
    Every request is appended, with its return code, to `trace`.
    The field buffers of the entry under the read pointer and the unique
    values of each field are finite, so the enumeration loops end. */
module Native {
  import opened Outcomes

  /** A `NAME=value` field buffer handed out by the library; a size_t of any
      supported width can hold its length. */
  type Buffer = s: string | |s| < 0x1_0000_0000

  /** The options the journal was opened with (`flags:`, `path:`). */
  datatype Options = Options(flags: int, path: Option<string>)

  /** The filter groups last passed to `filter`: each group a list of
      field/value terms. */
  type Matches = seq<seq<(string, string)>>

  datatype Request =
    | Next
    | Previous
    | NextSkip(amount: int)
    | PreviousSkip(amount: int)
    | SeekHead
    | SeekTail
    | SeekRealtime(usec: int)
    | SeekCursor(cursor: string)
    | GetCursor
    | TestCursor(cursor: string)
    | GetData(field: string)
    | RestartData
    | EnumerateData
    | RestartUnique
    | QueryUnique(field: string)
    | EnumerateUnique
    | AddMatch(term: string, length: int)
    | AddDisjunction
    | AddConjunction
    | FlushMatches
    | Close
    | Open(options: Options)
    | Filter(matches: Matches)
  {
    /** Requests after which the read pointer may stand on another entry. */
    predicate Repositions() {
      Next? || Previous? || NextSkip? || PreviousSkip? || SeekHead? || SeekTail? ||
      SeekRealtime? || SeekCursor? || Close? || Open? || Filter?
    }

    /** Requests that return nothing but a status code. */
    predicate Plain() {
      !(GetCursor? || GetData? || RestartData? || EnumerateData? || RestartUnique? ||
        QueryUnique? || EnumerateUnique? || Close? || FlushMatches?)
    }
  }

  datatype Event = Event(request: Request, rc: int)

  /** One byte of native memory. */
  newtype Byte = x: int | 0 <= x < 256

  function Pow256(w: nat): (p: nat)
    ensures p >= 1
  {
    if w == 0 then 1 else 256 * Pow256(w - 1)
  }

  /** The `w` bytes, least significant first, in which the library stores a
      size_t holding `n` (reduced modulo 256^w, as a machine word would be). */
  function EncodeLE(n: nat, w: nat): (bytes: seq<Byte>)
    ensures |bytes| == w
  {
    seq(w, i requires 0 <= i < w => (n / Pow256(i) % 256) as Byte)
  }

  /** The first buffer of `data` that holds field `field`. */
  function FindField(data: seq<Buffer>, field: string): (r: Option<Buffer>)
    ensures r.Some? ==> r.value in data && |field| < |r.value| &&
                        r.value[..|field| + 1] == field + "="
  {
    if data == [] then None
    else if |field| < |data[0]| && data[0][..|field| + 1] == field + "=" then Some(data[0])
    else FindField(data[1..], field)
  }

  /** Return code of one step of a field enumeration: a failure if the library
      reports one, else 1 while buffers remain and 0 once they are exhausted. */
  function EnumerateRc(answer: int, pos: nat, size: nat): int {
    if answer < 0 then answer else if pos < size then 1 else 0
  }

  class Backend {
    const reply: (nat, Request) -> int
    const cursorAt: nat -> string             // token a GetCursor request yields
    const entryAt: nat -> seq<Buffer>         // entry under the read pointer after a repositioning request
    const uniqueValues: string -> seq<Buffer> // `FIELD=value` buffers of each field's distinct values
    const sizeWidth: nat                      // bytes in a size_t

    var trace: seq<Event>
    var data: seq<Buffer>      // fields of the entry under the read pointer
    var dataPos: nat           // data enumeration position
    var unique: seq<Buffer>    // values of the last unique query
    var uniquePos: nat         // unique enumeration position

    constructor (reply: (nat, Request) -> int, cursorAt: nat -> string,
                 entryAt: nat -> seq<Buffer>, uniqueValues: string -> seq<Buffer>, sizeWidth: nat)
      ensures this.reply == reply && this.cursorAt == cursorAt && this.entryAt == entryAt
      ensures this.uniqueValues == uniqueValues && this.sizeWidth == sizeWidth
      ensures trace == [] && data == [] && dataPos == 0 && unique == [] && uniquePos == 0
    {
      this.reply := reply;
      this.cursorAt := cursorAt;
      this.entryAt := entryAt;
      this.uniqueValues := uniqueValues;
      this.sizeWidth := sizeWidth;
      trace := [];
      data := [];
      dataPos := 0;
      unique := [];
      uniquePos := 0;
    }

    /** What the library answers to `req` when it is request number `k`. */
    function Reply(k: nat, req: Request): int {
      reply(k, req)
    }

    /** What the library will answer to `req` if it is the next request. */
    function Answer(req: Request): int
      reads this
    {
      Reply(|trace|, req)
    }

    /** A request answered by a status code alone. */
    method Call(req: Request) returns (rc: int)
      requires req.Plain()
      modifies this`trace, this`data, this`dataPos
      ensures rc == Reply(old(|trace|), req)
      ensures trace == old(trace) + [Event(req, rc)]
      ensures data == (if req.Repositions() then entryAt(old(|trace|)) else old(data))
      ensures dataPos == (if req.Repositions() then 0 else old(dataPos))
      ensures unique == old(unique) && uniquePos == old(uniquePos)
    {
      rc := Reply(|trace|, req);
      if req.Repositions() {
        data := entryAt(|trace|);
        dataPos := 0;
      }
      trace := trace + [Event(req, rc)];
    }

    /** sd_journal_close: returns nothing. */
    method Close()
      modifies this`trace, this`data, this`dataPos
      ensures trace == old(trace) + [Event(Request.Close, 0)]
      ensures data == entryAt(old(|trace|)) && dataPos == 0
      ensures unique == old(unique) && uniquePos == old(uniquePos)
    {
      data := entryAt(|trace|);
      dataPos := 0;
      trace := trace + [Event(Request.Close, 0)];
    }

    /** sd_journal_flush_matches: returns nothing. */
    method FlushMatches()
      modifies this`trace
      ensures trace == old(trace) + [Event(Request.FlushMatches, 0)]
    {
      trace := trace + [Event(Request.FlushMatches, 0)];
    }

    /** sd_journal_get_cursor: a status code and the token it wrote. */
    method GetCursor() returns (rc: int, token: string)
      modifies this`trace
      ensures rc == Reply(old(|trace|), Request.GetCursor) && token == cursorAt(old(|trace|))
      ensures trace == old(trace) + [Event(Request.GetCursor, rc)]
    {
      rc := Reply(|trace|, Request.GetCursor);
      token := cursorAt(|trace|);
      trace := trace + [Event(Request.GetCursor, rc)];
    }

    /** sd_journal_get_data: the buffer of one field of the current entry, and
        its length as a size_t; -2 (ENOENT) when the entry lacks the field. */
    method GetData(field: string) returns (rc: int, buf: Buffer, size: seq<Byte>)
      modifies this`trace
      ensures var answer := Reply(old(|trace|), Request.GetData(field));
        if answer < 0 then rc == answer
        else match FindField(data, field)
          case None => rc == -2
          case Some(b) => rc == 0 && buf == b && size == EncodeLE(|b|, sizeWidth)
      ensures trace == old(trace) + [Event(Request.GetData(field), rc)]
    {
      rc := Reply(|trace|, Request.GetData(field));
      buf, size := "", [];
      if rc >= 0 {
        match FindField(data, field)
        case None =>
          rc := -2;
        case Some(b) =>
          rc, buf, size := 0, b, EncodeLE(|b|, sizeWidth);
      }
      trace := trace + [Event(Request.GetData(field), rc)];
    }

    /** sd_journal_restart_data: the next enumeration starts at the first field. */
    method RestartData()
      modifies this`trace, this`dataPos
      ensures dataPos == 0
      ensures trace == old(trace) + [Event(Request.RestartData, 0)]
    {
      dataPos := 0;
      trace := trace + [Event(Request.RestartData, 0)];
    }

    /** sd_journal_enumerate_data: the next field buffer of the current entry. */
    method EnumerateData() returns (rc: int, buf: Buffer, size: seq<Byte>)
      modifies this`trace, this`dataPos
      ensures rc == EnumerateRc(Reply(old(|trace|), Request.EnumerateData), old(dataPos), |data|)
      ensures rc > 0 ==> old(dataPos) < |data| && buf == data[old(dataPos)] &&
                         size == EncodeLE(|buf|, sizeWidth) && dataPos == old(dataPos) + 1
      ensures rc <= 0 ==> dataPos == old(dataPos)
      ensures trace == old(trace) + [Event(Request.EnumerateData, rc)]
    {
      rc := EnumerateRc(Reply(|trace|, Request.EnumerateData), dataPos, |data|);
      buf, size := "", [];
      if rc > 0 {
        buf := data[dataPos];
        size := EncodeLE(|buf|, sizeWidth);
        dataPos := dataPos + 1;
      }
      trace := trace + [Event(Request.EnumerateData, rc)];
    }

    /** sd_journal_restart_unique. */
    method RestartUnique()
      modifies this`trace, this`uniquePos
      ensures uniquePos == 0
      ensures trace == old(trace) + [Event(Request.RestartUnique, 0)]
    {
      uniquePos := 0;
      trace := trace + [Event(Request.RestartUnique, 0)];
    }

    /** sd_journal_query_unique: selects the field whose values are enumerated. */
    method QueryUnique(field: string) returns (rc: int)
      modifies this`trace, this`unique, this`uniquePos
      ensures rc == Reply(old(|trace|), Request.QueryUnique(field))
      ensures rc >= 0 ==> unique == uniqueValues(field) && uniquePos == 0
      ensures rc < 0 ==> unique == old(unique) && uniquePos == old(uniquePos)
      ensures trace == old(trace) + [Event(Request.QueryUnique(field), rc)]
    {
      rc := Reply(|trace|, Request.QueryUnique(field));
      if rc >= 0 {
        unique := uniqueValues(field);
        uniquePos := 0;
      }
      trace := trace + [Event(Request.QueryUnique(field), rc)];
    }

    /** sd_journal_enumerate_unique: the next `FIELD=value` buffer. */
    method EnumerateUnique() returns (rc: int, buf: Buffer, size: seq<Byte>)
      modifies this`trace, this`uniquePos
      ensures rc == EnumerateRc(Reply(old(|trace|), Request.EnumerateUnique), old(uniquePos), |unique|)
      ensures rc > 0 ==> old(uniquePos) < |unique| && buf == unique[old(uniquePos)] &&
                         size == EncodeLE(|buf|, sizeWidth) && uniquePos == old(uniquePos) + 1
      ensures rc <= 0 ==> uniquePos == old(uniquePos)
      ensures trace == old(trace) + [Event(Request.EnumerateUnique, rc)]
    {
      rc := EnumerateRc(Reply(|trace|, Request.EnumerateUnique), uniquePos, |unique|);
      buf, size := "", [];
      if rc > 0 {
        buf := unique[uniquePos];
        size := EncodeLE(|buf|, sizeWidth);
        uniquePos := uniquePos + 1;
      }
      trace := trace + [Event(Request.EnumerateUnique, rc)];
    }
  }
}
