/** lib/systemd/journal.rb: building filter terms, reading the fields of the
    current entry and the distinct values of a field, reading a size_t of the
    platform's width, and this file's own versions of the moves and of seek.
    The methods act on the journal handle `j`. */
module Journal {
  import opened Outcomes
  import opened Text
  import opened OrderedMaps
  import opened Native
  import opened Movement

  // ---------------------------------------------------------------- read_size_t

  /** The widths of size_t that `read_size_t` handles. */
  predicate SupportedWidth(w: nat) {
    w == 8 || w == 4
  }

  /** The unsigned integer stored least significant byte first in `bytes`. */
  function DecodeLE(bytes: seq<Byte>): (n: nat)
    ensures n < Pow256(|bytes|)
  {
    if bytes == [] then 0 else bytes[0] as nat + 256 * DecodeLE(bytes[1..])
  }

  /** `read_size_t(ptr)`: an 8-byte pointer is read as a 64-bit integer, a
      4-byte one as a 32-bit integer, any other raises StandardError. */
  function ReadSizeT(mem: seq<Byte>): (r: Outcome<nat>)
    ensures r.Raised? <==> !SupportedWidth(|mem|)
    ensures r.Raised? ==> r.error == StandardError
    ensures r.Returned? ==> r.value < Pow256(|mem|)
    ensures !r.ReturnedNil?
  {
    if |mem| == 8 then Returned(DecodeLE(mem[..8]))
    else if |mem| == 4 then Returned(DecodeLE(mem[..4]))
    else Raised(StandardError)
  }

  /** Reading back `w` bytes written least significant first gives the
      number written, when it fits. */
  lemma {:induction false} DecodeEncode(n: nat, w: nat)
    requires n < Pow256(w)
    ensures DecodeLE(EncodeLE(n, w)) == n
  {
    if w > 0 {
      var q, r := n / 256, n % 256;
      DivBound(n, Pow256(w - 1));
      DecodeEncode(q, w - 1);
      EncodeSplit(n, w);
      assert DecodeLE(EncodeLE(n, w)) == r + 256 * DecodeLE(EncodeLE(q, w - 1));
    }
  }

  /** The first byte written holds `n % 256` and the others hold `n / 256`. */
  lemma EncodeSplit(n: nat, w: nat)
    requires w > 0
    ensures EncodeLE(n, w)[0] as nat == n % 256
    ensures EncodeLE(n, w)[1..] == EncodeLE(n / 256, w - 1)
  {
    var bytes := EncodeLE(n, w);
    forall i | 0 <= i < w - 1
      ensures bytes[1..][i] == EncodeLE(n / 256, w - 1)[i]
    {
      DivDiv(n, Pow256(i));
    }
  }

  lemma DivBound(n: nat, p: nat)
    requires n < 256 * p
    ensures n / 256 < p
  {
    var q := n / 256;
    assert n == 256 * q + n % 256;
    if q >= p {
      assert false;
    }
  }

  /** Dividing by 256 and then by `p` is dividing by `256 * p`. */
  lemma DivDiv(n: nat, p: nat)
    requires p >= 1
    ensures n / (256 * p) == n / 256 / p
  {
    var q := n / 256;
    var a := q / p;
    var d := 256 * p;
    assert q == p * a + q % p;
    assert n == 256 * q + n % 256;
    assert n == d * a + (256 * (q % p) + n % 256);
    DivUnique(n, d, a, 256 * (q % p) + n % 256);
  }

  lemma DivUnique(n: nat, d: nat, a: nat, r: nat)
    requires d >= 1 && n == d * a + r && r < d
    ensures n / d == a
  {
    var b := n / d;
    assert n == d * b + n % d;
    if b > a {
      MulLeq(d, a + 1, b);
      assert false;
    } else if b < a {
      MulLeq(d, b + 1, a);
      assert false;
    }
  }

  lemma MulLeq(d: nat, x: nat, y: nat)
    requires x <= y
    ensures d * x <= d * y
  {
  }

  /** A length the library stores in a size_t of a supported width reads back
      unchanged. */
  lemma SizeRoundTrip(n: nat, w: nat)
    requires SupportedWidth(w) && n < 0x1_0000_0000
    ensures ReadSizeT(EncodeLE(n, w)) == Returned(n)
  {
    assert Pow256(2) == 0x1_0000;
    assert Pow256(4) == 0x1_0000_0000;
    assert Pow256(8) >= Pow256(4) by {
      assert Pow256(6) >= Pow256(4);
    }
    DecodeEncode(n, w);
    assert EncodeLE(n, w)[..w] == EncodeLE(n, w);
  }

  // ---------------------------------------------------------------- filter terms

  /** `"#{field.to_s.upcase}=#{value}"`: the match term `add_match` pushes. */
  function MatchTerm(field: string, value: string): (term: string)
    ensures |term| == |field| + 1 + |value|
    ensures term[..|field|] == Upcase(field) && term[|field|] == '='
    ensures term[|field| + 1..] == value
  {
    Upcase(field) + "=" + value
  }

  /** The term splits back into the upper-cased field and the value, when the
      field has no `=` of its own. */
  lemma MatchTermSplits(field: string, value: string)
    requires '=' !in field
    ensures SplitOnce(MatchTerm(field, value)) == [Upcase(field), value]
  {
    var name := Upcase(field);
    forall i | 0 <= i < |name| ensures name[i] != '=' {
      assert field[i] != '=';
    }
    SplitJoin(name, value);
  }

  /** `add_match(field, value)`: pushes the term with its length; raises on a
      negative return code, else returns nil. */
  method AddMatch(j: Backend, field: string, value: string) returns (r: Outcome<()>)
    modifies j`trace, j`data, j`dataPos
    ensures var term := MatchTerm(field, value);
      var rc := old(j.Answer(Request.AddMatch(term, |term|)));
      j.trace == old(j.trace) + [Event(Request.AddMatch(term, |term|), rc)] &&
      r == (if rc < 0 then Raised(JournalError(rc)) else ReturnedNil)
  {
    var term := Upcase(field) + "=" + value;
    var rc := j.Call(Request.AddMatch(term, |term|));
    if rc < 0 {
      return Raised(JournalError(rc));
    }
    r := ReturnedNil;
  }

  /** `add_disjunction`: raises on a negative return code, else returns nil. */
  method AddDisjunction(j: Backend) returns (r: Outcome<()>)
    modifies j`trace, j`data, j`dataPos
    ensures var rc := old(j.Answer(Request.AddDisjunction));
      j.trace == old(j.trace) + [Event(Request.AddDisjunction, rc)] &&
      r == (if rc < 0 then Raised(JournalError(rc)) else ReturnedNil)
  {
    var rc := j.Call(Request.AddDisjunction);
    if rc < 0 {
      return Raised(JournalError(rc));
    }
    r := ReturnedNil;
  }

  /** `add_conjunction`: raises on a negative return code, else returns nil. */
  method AddConjunction(j: Backend) returns (r: Outcome<()>)
    modifies j`trace, j`data, j`dataPos
    ensures var rc := old(j.Answer(Request.AddConjunction));
      j.trace == old(j.trace) + [Event(Request.AddConjunction, rc)] &&
      r == (if rc < 0 then Raised(JournalError(rc)) else ReturnedNil)
  {
    var rc := j.Call(Request.AddConjunction);
    if rc < 0 {
      return Raised(JournalError(rc));
    }
    r := ReturnedNil;
  }

  /** `clear_matches`: the library call returns nothing, and neither does it. */
  method ClearMatches(j: Backend)
    modifies j`trace
    ensures j.trace == old(j.trace) + [Event(Request.FlushMatches, 0)]
  {
    j.FlushMatches();
  }

  // ---------------------------------------------------------------- reading fields

  /** The key `key, value = buf.split('=', 2)` assigns. */
  function FieldKey(buf: string): Option<string> {
    var parts := SplitOnce(buf);
    if parts == [] then None else Some(parts[0])
  }

  /** The value that assignment gives. */
  function FieldValue(buf: string): Option<string> {
    var parts := SplitOnce(buf);
    if |parts| == 2 then Some(parts[1]) else None
  }

  /** An empty buffer gives a nil key; otherwise the key is the text before
      the first `=`, or the whole buffer, and the value is the text after that
      `=`, or nil when there is none. */
  lemma FieldSplit(buf: string)
    ensures FieldKey(buf).None? <==> buf == ""
    ensures FieldValue(buf).None? <==> '=' !in buf
    ensures FieldKey(buf).Some? && FieldValue(buf).None? ==> FieldKey(buf).value == buf
    ensures FieldValue(buf).Some? ==>
      '=' !in FieldKey(buf).value && buf == FieldKey(buf).value + "=" + FieldValue(buf).value
  {
  }

  /** The hashes `current_entry` builds: field name (or nil) to value (or nil). */
  type Fields = OrderedMap<Option<string>, Option<string>>

  /** `results[key] = value` for the field buffer `buf`. */
  function Store(acc: Fields, buf: string): (m: Fields)
    requires UniqueKeys(acc)
    ensures UniqueKeys(m)
  {
    Put(acc, FieldKey(buf), FieldValue(buf))
  }

  /** The hash reached from `acc` by storing the fields of `bufs` from
      position `i` on, in order. */
  function StoreFrom(acc: Fields, bufs: seq<string>, i: nat): (m: Fields)
    requires UniqueKeys(acc)
    ensures UniqueKeys(m)
    decreases |bufs| - i
  {
    if i >= |bufs| then acc else StoreFrom(Store(acc, bufs[i]), bufs, i + 1)
  }

  /** The hash `current_entry` builds from the field buffers `bufs`. */
  function EntryOf(bufs: seq<string>): (m: Fields)
    ensures UniqueKeys(m)
  {
    StoreFrom([], bufs, 0)
  }

  /** The value of the last buffer in `bufs` whose key is `k`. */
  function LastValueOf(bufs: seq<string>, k: Option<string>): Option<Option<string>> {
    if bufs == [] then None
    else
      match LastValueOf(bufs[1..], k)
      case Some(v) => Some(v)
      case None => if FieldKey(bufs[0]) == k then Some(FieldValue(bufs[0])) else None
  }

  /** `ks` followed by the elements of `more` it lacks, each once, in the
      order of their first occurrence. */
  function AppendNew<K(==)>(ks: seq<K>, more: seq<K>): seq<K>
    decreases |more|
  {
    if more == [] then ks
    else AppendNew(if more[0] in ks then ks else ks + [more[0]], more[1..])
  }

  function KeysOf(bufs: seq<string>): (ks: seq<Option<string>>)
    ensures |ks| == |bufs| && forall i :: 0 <= i < |bufs| ==> ks[i] == FieldKey(bufs[i])
  {
    seq(|bufs|, i requires 0 <= i < |bufs| => FieldKey(bufs[i]))
  }

  lemma {:induction false} StoreFromLookup(acc: Fields, bufs: seq<string>, i: nat, k: Option<string>)
    requires UniqueKeys(acc) && i <= |bufs|
    ensures Get(StoreFrom(acc, bufs, i), k) ==
      match LastValueOf(bufs[i..], k) case Some(v) => Some(v) case None => Get(acc, k)
    decreases |bufs| - i
  {
    if i < |bufs| {
      var key, value := FieldKey(bufs[i]), FieldValue(bufs[i]);
      var acc' := Store(acc, bufs[i]);
      assert StoreFrom(acc, bufs, i) == StoreFrom(acc', bufs, i + 1);
      assert bufs[i..][1..] == bufs[i + 1..];
      assert LastValueOf(bufs[i..], k) ==
        match LastValueOf(bufs[i + 1..], k)
        case Some(v) => Some(v)
        case None => if key == k then Some(value) else None;
      PutLaws(acc, key, value);
      assert Get(acc', k) == if key == k then Some(value) else Get(acc, k);
      StoreFromLookup(acc', bufs, i + 1, k);
    }
  }

  /** A repeated key keeps the value of its last buffer; a key no buffer has
      is absent. */
  lemma EntryOfLookup(bufs: seq<string>, k: Option<string>)
    ensures Get(EntryOf(bufs), k) == LastValueOf(bufs, k)
  {
    StoreFromLookup([], bufs, 0, k);
    assert bufs[0..] == bufs;
  }

  lemma {:induction false} StoreFromKeys(acc: Fields, bufs: seq<string>, i: nat)
    requires UniqueKeys(acc) && i <= |bufs|
    ensures Keys(StoreFrom(acc, bufs, i)) == AppendNew(Keys(acc), KeysOf(bufs[i..]))
    decreases |bufs| - i
  {
    if i < |bufs| {
      var key := FieldKey(bufs[i]);
      var acc' := Store(acc, bufs[i]);
      assert StoreFrom(acc, bufs, i) == StoreFrom(acc', bufs, i + 1);
      var ks := KeysOf(bufs[i..]);
      assert ks != [] && ks[0] == key;
      assert ks[1..] == KeysOf(bufs[i + 1..]);
      PutLaws(acc, key, FieldValue(bufs[i]));
      assert Keys(acc') == if key in Keys(acc) then Keys(acc) else Keys(acc) + [key];
      assert AppendNew(Keys(acc), ks) == AppendNew(Keys(acc'), ks[1..]);
      StoreFromKeys(acc', bufs, i + 1);
    }
  }

  /** Keys appear once each, in the order the enumeration first produced them. */
  lemma EntryOfKeys(bufs: seq<string>)
    ensures Keys(EntryOf(bufs)) == AppendNew([], KeysOf(bufs))
  {
    StoreFromKeys([], bufs, 0);
    assert bufs[0..] == bufs;
  }

  /** A `NAME=value` buffer stores `value` under `NAME`. */
  lemma FieldOfJoin(name: string, value: string)
    requires '=' !in name
    ensures FieldKey(name + "=" + value) == Some(name)
    ensures FieldValue(name + "=" + value) == Some(value)
  {
    SplitJoin(name, value);
  }

  /** Two buffers with different names decode to two entries, in order. */
  lemma DecodeTwoFields(name1: string, value1: string, name2: string, value2: string)
    requires '=' !in name1 && '=' !in name2 && name1 != name2
    ensures EntryOf([name1 + "=" + value1, name2 + "=" + value2]) ==
      [(Some(name1), Some(value1)), (Some(name2), Some(value2))]
  {
    var bufs := [name1 + "=" + value1, name2 + "=" + value2];
    FieldOfJoin(name1, value1);
    FieldOfJoin(name2, value2);
    var first := (Some(name1), Some(value1));
    var second := (Some(name2), Some(value2));
    assert Store([], bufs[0]) == [first];
    assert IndexOf([first], second.0) == None;
    assert Store([first], bufs[1]) == [first, second];
    calc {
      EntryOf(bufs);
      StoreFrom([], bufs, 0);
      StoreFrom([first], bufs, 1);
      StoreFrom([first, second], bufs, 2);
      [first, second];
    }
  }

  /** The decoding the field buffers `_PID=100` and `MESSAGE=hello world` get. */
  lemma DecodeExample()
    ensures EntryOf(["_PID=100", "MESSAGE=hello world"]) ==
      [(Some("_PID"), Some("100")), (Some("MESSAGE"), Some("hello world"))]
  {
    assert "_PID=100" == "_PID" + "=" + "100";
    assert "MESSAGE=hello world" == "MESSAGE" + "=" + "hello world";
    DecodeTwoFields("_PID", "100", "MESSAGE", "hello world");
  }


  /** `read_field(field)`: the value of one field of the current entry, the
      part of its buffer after the first `=`. The name is passed to the
      library as given. */
  method ReadField(j: Backend, field: string) returns (r: Outcome<string>)
    modifies j`trace
    ensures var answer := old(j.Answer(GetData(field)));
      && (answer < 0 ==> r == Raised(JournalError(answer)))
      && (answer >= 0 && FindField(j.data, field).None? ==> r == Raised(JournalError(-2)))
      && (answer >= 0 && FindField(j.data, field).Some? && !SupportedWidth(j.sizeWidth) ==>
            r == Raised(StandardError))
      && (answer >= 0 && FindField(j.data, field).Some? && SupportedWidth(j.sizeWidth) && '=' !in field ==>
            r == Returned(FindField(j.data, field).value[|field| + 1..]))
    ensures |j.trace| == |old(j.trace)| + 1 && j.trace[..|old(j.trace)|] == old(j.trace)
    ensures j.trace[|old(j.trace)|].request == GetData(field)
  {
    var rc, buf, size := j.GetData(field);
    if rc < 0 {
      return Raised(JournalError(rc));
    }
    var len := ReadSizeT(size);
    if len.Raised? {
      return Raised(len.error);
    }
    SizeRoundTrip(|buf|, j.sizeWidth);
    var text := buf[..len.value];
    assert text == buf;
    var value := AfterFirstEquals(text);
    if value.None? {
      return ReturnedNil;
    }
    r := Returned(value.value);
    if '=' !in field {
      assert buf == field + "=" + buf[|field| + 1..];
      SplitJoin(field, buf[|field| + 1..]);
    }
  }

  /** `ptr.read_string(read_size_t(len_ptr))`: the buffer the library
      returned, read with the length it stored in a size_t. */
  method ReadBuffer(buf: Buffer, size: seq<Byte>, ghost w: nat) returns (r: Outcome<string>)
    requires size == EncodeLE(|buf|, w)
    ensures r == if SupportedWidth(w) then Returned(buf) else Raised(StandardError)
  {
    var len := ReadSizeT(size);
    if len.Raised? {
      return Raised(len.error);
    }
    SizeRoundTrip(|buf|, w);
    assert buf[..len.value] == buf;
    r := Returned(buf[..len.value]);
  }


  /** `n` successful enumeration steps. */
  function Steps(req: Request, n: nat): (es: seq<Event>)
    ensures |es| == n
    ensures forall i :: 0 <= i < n ==> es[i] == Event(req, 1)
  {
    seq(n, _ => Event(req, 1))
  }

  /** One more successful step extends the run of steps. */
  lemma StepsSnoc(t: seq<Event>, req: Request, n: nat)
    ensures t + Steps(req, n) + [Event(req, 1)] == t + Steps(req, n + 1)
  {
    assert Steps(req, n) + [Event(req, 1)] == Steps(req, n + 1);
  }

  /** `current_entry`: restarts the field enumeration and drains it into a
      hash; a negative return code at any step raises. */
  method CurrentEntry(j: Backend) returns (r: Outcome<Fields>, ghost n: nat, ghost last: int)
    modifies j`trace, j`dataPos
    ensures j.trace == old(j.trace) + [Event(RestartData, 0)] + Steps(EnumerateData, n) + [Event(EnumerateData, last)]
    ensures n <= |j.data|
    ensures last == EnumerateRc(j.Reply(|old(j.trace)| + 1 + n, EnumerateData), n, |j.data|)
    ensures r.Returned? ==> r.value == EntryOf(j.data) && n == |j.data| && last == 0
    ensures r.Raised? ==>
      (r.error == JournalError(last) && last < 0) ||
      (r.error == StandardError && !SupportedWidth(j.sizeWidth) && last == 1)
    ensures last == 0 ==> r.Returned?
    ensures !r.ReturnedNil?
  {
    j.RestartData();
    r, n, last := CollectData(j);
  }

  /** The loop of `current_entry`, from a restarted enumeration on. */
  method CollectData(j: Backend) returns (r: Outcome<Fields>, ghost n: nat, ghost last: int)
    requires j.dataPos == 0
    modifies j`trace, j`dataPos
    ensures j.trace == old(j.trace) + Steps(EnumerateData, n) + [Event(EnumerateData, last)]
    ensures n <= |j.data|
    ensures last == EnumerateRc(j.Reply(|old(j.trace)| + n, EnumerateData), n, |j.data|)
    ensures r.Returned? ==> r.value == EntryOf(j.data) && n == |j.data| && last == 0
    ensures r.Raised? ==>
      (r.error == JournalError(last) && last < 0) ||
      (r.error == StandardError && !SupportedWidth(j.sizeWidth) && last == 1)
    ensures last == 0 ==> r.Returned?
    ensures !r.ReturnedNil?
  {
    ghost var t0 := j.trace;
    ghost var k := |t0|;
    n := 0;
    ghost var data := j.data;
    var results: Fields := [];
    while true
      invariant j.trace == t0 + Steps(EnumerateData, n) && |j.trace| == k + n
      invariant j.data == data && n <= |data| && j.dataPos == n
      invariant UniqueKeys(results) && StoreFrom(results, data, n) == EntryOf(data)
      decreases |data| - n
    {
      var rc, buf, size := j.EnumerateData();
      last := rc;
      if rc < 0 {
        return Raised(JournalError(rc)), n, last;
      }
      if rc == 0 {
        return Returned(results), n, last;
      }
      var read := ReadBuffer(buf, size, j.sizeWidth);
      if read.Raised? {
        return Raised(read.error), n, last;
      }
      var text := read.value;
      results := Store(results, text);
      StepsSnoc(t0, EnumerateData, n);
      n := n + 1;
    }
  }

  /** The values `query_unique` collects from the buffers `bufs`: one per
      buffer, in enumeration order, each the buffer's text after its first `=`. */
  function ValuesOf(bufs: seq<string>): (vs: seq<Option<string>>)
    ensures |vs| == |bufs|
  {
    seq(|bufs|, i requires 0 <= i < |bufs| => AfterFirstEquals(bufs[i]))
  }

  /** `query_unique(field)`: restarts the unique enumeration and queries the
      upper-cased field, raising on a negative return code; otherwise drains
      the enumeration into a list of values. */
  method QueryUnique(j: Backend, field: string) returns (r: Outcome<seq<Option<string>>>, ghost n: nat, ghost last: int)
    modifies j`trace, j`unique, j`uniquePos
    ensures var name := Upcase(field);
      var q := j.Reply(|old(j.trace)| + 1, Request.QueryUnique(name));
      var queried := old(j.trace) + [Event(RestartUnique, 0), Event(Request.QueryUnique(name), q)];
      && (q < 0 ==> r == Raised(JournalError(q)) && j.trace == queried)
      && (q >= 0 ==>
            && j.unique == j.uniqueValues(name) && n <= |j.unique|
            && j.trace == queried + Steps(EnumerateUnique, n) + [Event(EnumerateUnique, last)]
            && last == EnumerateRc(j.Reply(|queried| + n, EnumerateUnique), n, |j.unique|)
            && (r.Returned? <==> last == 0)
            && (r.Returned? ==> r.value == ValuesOf(j.unique) && n == |j.unique|)
            && (r.Raised? ==>
                  (r.error == JournalError(last) && last < 0) ||
                  (r.error == StandardError && !SupportedWidth(j.sizeWidth) && last == 1)))
    ensures !r.ReturnedNil?
  {
    var name := Upcase(field);
    j.RestartUnique();
    var q := j.QueryUnique(name);
    if q < 0 {
      return Raised(JournalError(q)), 0, q;
    }
    r, n, last := CollectValues(j);
  }

  /** The loop of `query_unique`, from a successful query on. */
  method CollectValues(j: Backend) returns (r: Outcome<seq<Option<string>>>, ghost n: nat, ghost last: int)
    requires j.uniquePos == 0
    modifies j`trace, j`uniquePos
    ensures j.trace == old(j.trace) + Steps(EnumerateUnique, n) + [Event(EnumerateUnique, last)]
    ensures n <= |j.unique|
    ensures last == EnumerateRc(j.Reply(|old(j.trace)| + n, EnumerateUnique), n, |j.unique|)
    ensures r.Returned? ==> r.value == ValuesOf(j.unique) && n == |j.unique| && last == 0
    ensures r.Raised? ==>
      (r.error == JournalError(last) && last < 0) ||
      (r.error == StandardError && !SupportedWidth(j.sizeWidth) && last == 1)
    ensures last == 0 ==> r.Returned?
    ensures !r.ReturnedNil?
  {
    ghost var t0 := j.trace;
    n := 0;
    ghost var values := j.unique;
    var results: seq<Option<string>> := [];
    while true
      invariant j.trace == t0 + Steps(EnumerateUnique, n) && |j.trace| == |t0| + n
      invariant j.unique == values && n <= |values| && j.uniquePos == n
      invariant |results| == n
      invariant forall m :: 0 <= m < n ==> results[m] == AfterFirstEquals(values[m])
      decreases |values| - n
    {
      var rc, buf, size := j.EnumerateUnique();
      last := rc;
      if rc < 0 {
        return Raised(JournalError(rc)), n, last;
      }
      if rc == 0 {
        return Returned(results), n, last;
      }
      var read := ReadBuffer(buf, size, j.sizeWidth);
      if read.Raised? {
        return Raised(read.error), n, last;
      }
      results := results + [AfterFirstEquals(read.value)];
      StepsSnoc(t0, EnumerateUnique, n);
      n := n + 1;
    }
  }

  // ---------------------------------------------------------------- moves as written

  /** `case rc when 0 then false when 1 then true when rc < 0 then raise ...`,
      as written: the last branch compares `rc` with a boolean and never
      matches, so every return code other than 0 and 1 yields nil. */
  function CaseMoveResult(rc: int): (r: Outcome<bool>)
    ensures r.Returned? <==> rc == 0 || rc == 1
    ensures r.Returned? ==> (r.value <==> rc == 1)
    ensures !r.Raised?
  {
    if rc == 0 then Returned(false) else if rc == 1 then Returned(true) else ReturnedNil
  }

  /** A failing move returns nil where the intended result raises its code. */
  lemma NegativeMoveReturnsNil(rc: int)
    requires rc < 0
    ensures CaseMoveResult(rc) == ReturnedNil
    ensures Flag(rc) == Raised(JournalError(rc))
  {
  }

  method MoveNext(j: Backend) returns (r: Outcome<bool>)
    modifies j`trace, j`data, j`dataPos
    ensures var rc := old(j.Answer(Next));
      r == CaseMoveResult(rc) && j.trace == old(j.trace) + [Event(Next, rc)]
  {
    var rc := j.Call(Next);
    if rc == 0 {
      r := Returned(false);
    } else if rc == 1 {
      r := Returned(true);
    } else {
      r := ReturnedNil;
    }
  }

  method MovePrevious(j: Backend) returns (r: Outcome<bool>)
    modifies j`trace, j`data, j`dataPos
    ensures var rc := old(j.Answer(Previous));
      r == CaseMoveResult(rc) && j.trace == old(j.trace) + [Event(Previous, rc)]
  {
    var rc := j.Call(Previous);
    if rc == 0 {
      r := Returned(false);
    } else if rc == 1 {
      r := Returned(true);
    } else {
      r := ReturnedNil;
    }
  }

  method MoveNextSkip(j: Backend, amount: int) returns (r: Outcome<nat>)
    modifies j`trace, j`data, j`dataPos
    ensures var rc := old(j.Answer(NextSkip(amount)));
      r == Count(rc) && j.trace == old(j.trace) + [Event(NextSkip(amount), rc)]
  {
    var rc := j.Call(NextSkip(amount));
    if rc < 0 {
      return Raised(JournalError(rc));
    }
    r := Returned(rc);
  }

  method MovePreviousSkip(j: Backend, amount: int) returns (r: Outcome<nat>)
    modifies j`trace, j`data, j`dataPos
    ensures var rc := old(j.Answer(PreviousSkip(amount)));
      r == Count(rc) && j.trace == old(j.trace) + [Event(PreviousSkip(amount), rc)]
  {
    var rc := j.Call(PreviousSkip(amount));
    if rc < 0 {
      return Raised(JournalError(rc));
    }
    r := Returned(rc);
  }

  // ---------------------------------------------------------------- seek as written

  /** The dispatch of this file's `seek`, as written: `when whence.is_a?(Time)`
      compares `whence` with a boolean, so a Time falls through to
      `ArgumentError`, and only `false` takes that branch, where `to_i` is
      missing. */
  function CaseSeekRequest(whence: Where): (r: Outcome<Request>)
    ensures !r.ReturnedNil?
    ensures r.Returned? <==> whence in {Symbol("head"), Symbol("start"), Symbol("tail"), Symbol("end")}
    ensures r.Returned? ==> r.value == SeekRequest(whence).value
    ensures r == Raised(NoMethodError("to_i")) <==> whence == Boolean(false)
    ensures r.Raised? && whence != Boolean(false) ==> r.error == ArgumentError
  {
    if whence == Symbol("head") || whence == Symbol("start") then Returned(SeekHead)
    else if whence == Symbol("tail") || whence == Symbol("end") then Returned(SeekTail)
    else if whence == Boolean(false) then Raised(NoMethodError("to_i"))
    else Raised(ArgumentError)
  }

  /** A Time is refused where the intended dispatch seeks to it. */
  lemma TimeSeekRefused(t: Time)
    ensures CaseSeekRequest(TimeArg(t)) == Raised(ArgumentError)
    ensures SeekRequest(TimeArg(t)) == Some(SeekRealtime(RealtimeUsec(t)))
  {
  }

  method Seek(j: Backend, whence: Where) returns (r: Outcome<bool>)
    modifies j`trace, j`data, j`dataPos
    ensures CaseSeekRequest(whence).Raised? ==>
      r == Raised(CaseSeekRequest(whence).error) && j.trace == old(j.trace)
    ensures CaseSeekRequest(whence).Returned? ==>
      var rc := old(j.Answer(CaseSeekRequest(whence).value));
      r == MisspeltSeekResult(rc) && j.trace == old(j.trace) + [Event(CaseSeekRequest(whence).value, rc)]
  {
    var req: Request;
    if whence == Symbol("head") || whence == Symbol("start") {
      req := SeekHead;
    } else if whence == Symbol("tail") || whence == Symbol("end") {
      req := SeekTail;
    } else if whence == Boolean(false) {
      return Raised(NoMethodError("to_i"));
    } else {
      return Raised(ArgumentError);
    }
    var rc := j.Call(req);
    if rc < 0 {
      return Raised(NoMethodError("JournalErrornew"));
    }
    r := Returned(true);
  }
}
