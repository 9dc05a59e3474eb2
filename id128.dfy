/** lib/systemd/id128.rb: 128-bit identifiers from libsystemd-id128, rendered
    as 32 lower-case hex digits. The machine and boot identifiers are fetched
    once and remembered; a random identifier is fetched on every call. */
module Id128 {
  import opened Outcomes
  import opened Native

  /** The 16 bytes of an `sd_id128_t`, in memory order. */
  type Id = s: seq<Byte> | |s| == 16 witness seq(16, _ => 0 as Byte)

  /** The lower-case hex digit of `d`: `0`-`9`, then `a`-`f`. */
  function HexDigit(d: nat): (c: char)
    requires d < 16
    ensures '0' <= c <= '9' || 'a' <= c <= 'f'
  {
    if d < 10 then ('0' as int + d) as char else ('a' as int + d - 10) as char
  }

  /** The value of a lower-case hex digit, or None for any other character. */
  function DigitValue(c: char): (d: Option<nat>)
    ensures d.Some? ==> d.value < 16 && HexDigit(d.value) == c
    ensures d.None? <==> !('0' <= c <= '9' || 'a' <= c <= 'f')
  {
    if '0' <= c <= '9' then Some(c as nat - '0' as nat)
    else if 'a' <= c <= 'f' then Some(c as nat - 'a' as nat + 10)
    else None
  }

  /** `"%02x" % b`: two digits, high nibble first. */
  function ByteHex(b: Byte): (s: string)
    ensures |s| == 2
  {
    [HexDigit(b as nat / 16), HexDigit(b as nat % 16)]
  }

  /** Each byte in order as two hex digits. */
  function Hex(bytes: seq<Byte>): (s: string)
    ensures |s| == 2 * |bytes|
  {
    if bytes == [] then "" else ByteHex(bytes[0]) + Hex(bytes[1..])
  }

  /** `Id128#to_s`: `("%02x" * 16) % bytes`. */
  function ToS(id: Id): (s: string)
    ensures |s| == 32
  {
    Hex(id)
  }

  /** Byte `i` occupies the two characters at 2i. */
  lemma {:induction false} HexFields(bytes: seq<Byte>, i: nat)
    requires i < |bytes|
    ensures Hex(bytes)[2 * i..2 * i + 2] == ByteHex(bytes[i])
  {
    if i > 0 {
      HexFields(bytes[1..], i - 1);
      assert Hex(bytes)[2 * i..2 * i + 2] == Hex(bytes[1..])[2 * (i - 1)..2 * (i - 1) + 2];
    }
  }

  /** Reads pairs of hex digits back into bytes; None for an odd length or a
      character that is not a lower-case hex digit. */
  function ParseHex(s: string): (r: Option<seq<Byte>>)
    ensures r.Some? ==> 2 * |r.value| == |s|
    decreases |s|
  {
    if |s| < 2 then (if s == [] then Some([]) else None)
    else
      var hi, lo := DigitValue(s[0]), DigitValue(s[1]);
      if hi.None? || lo.None? then None
      else
        match ParseHex(s[2..])
        case None => None
        case Some(rest) => Some([(hi.value * 16 + lo.value) as Byte] + rest)
  }

  /** The two digits of a byte read back as that byte. */
  lemma ByteHexDigits(b: Byte)
    ensures DigitValue(ByteHex(b)[0]) == Some(b as nat / 16)
    ensures DigitValue(ByteHex(b)[1]) == Some(b as nat % 16)
  {
    DigitOf(b as nat / 16);
    DigitOf(b as nat % 16);
  }

  lemma DigitOf(d: nat)
    requires d < 16
    ensures DigitValue(HexDigit(d)) == Some(d)
  {
  }

  /** Reading the rendering back gives the bytes rendered. */
  lemma {:induction false} ParseHexOfHex(bytes: seq<Byte>)
    ensures ParseHex(Hex(bytes)) == Some(bytes)
  {
    if bytes != [] {
      var b := bytes[0];
      var s := Hex(bytes);
      assert s == ByteHex(b) + Hex(bytes[1..]);
      var hi, lo := b as nat / 16, b as nat % 16;
      ByteHexDigits(b);
      assert s[0] == ByteHex(b)[0] && s[1] == ByteHex(b)[1];
      assert DigitValue(s[0]) == Some(hi) && DigitValue(s[1]) == Some(lo);
      assert s[2..] == Hex(bytes[1..]);
      ParseHexOfHex(bytes[1..]);
      Nibbles(b);
      ParseHexStep(s, hi, lo, bytes[1..]);
      assert [(hi * 16 + lo) as Byte] + bytes[1..] == [b] + bytes[1..];
      assert bytes == [b] + bytes[1..];
    }
  }

  /** Two digits in front of a readable rest read as one more byte. */
  lemma ParseHexStep(s: string, hi: nat, lo: nat, rest: seq<Byte>)
    requires |s| >= 2 && hi < 16 && lo < 16
    requires DigitValue(s[0]) == Some(hi) && DigitValue(s[1]) == Some(lo) && ParseHex(s[2..]) == Some(rest)
    ensures ParseHex(s) == Some([(hi * 16 + lo) as Byte] + rest)
  {
  }

  /** A byte is its high nibble times 16 plus its low nibble. */
  lemma Nibbles(b: Byte)
    ensures (b as nat / 16 * 16 + b as nat % 16) as Byte == b
  {
  }

  /** Rendering distributes over concatenation. */
  lemma {:induction false} HexAppend(a: seq<Byte>, b: seq<Byte>)
    ensures Hex(a + b) == Hex(a) + Hex(b)
  {
    if a != [] {
      assert (a + b)[0] == a[0] && (a + b)[1..] == a[1..] + b;
      assert Hex(a + b) == ByteHex(a[0]) + Hex(a[1..] + b);
      HexAppend(a[1..], b);
    } else {
      assert a + b == b;
    }
  }

  /** Distinct identifiers render as distinct strings. */
  lemma ToSInjective(a: Id, b: Id)
    ensures ToS(a) == ToS(b) <==> a == b
  {
    ParseHexOfHex(a);
    ParseHexOfHex(b);
  }

  /** The bytes a1 0c repeated eight times render as "a10c" eight times. */
  lemma ToSExample(id: Id)
    requires forall i :: 0 <= i < 16 ==> id[i] == if i % 2 == 0 then 0xa1 else 0x0c
    ensures ToS(id) == "a10ca10ca10ca10ca10ca10ca10ca10c"
  {
    var p: seq<Byte> := [0xa1, 0x0c];
    HexPair();
    var q := p + p;
    HexDouble(p, "a10c");
    var r := q + q;
    HexDouble(q, "a10ca10c");
    var t := r + r;
    HexDouble(r, "a10ca10ca10ca10c");
    assert id == t;
  }

  lemma HexPair()
    ensures Hex([0xa1, 0x0c]) == "a10c"
  {
    assert ByteHex(0xa1) == "a1" && ByteHex(0x0c) == "0c";
  }

  lemma HexDouble(a: seq<Byte>, s: string)
    requires Hex(a) == s
    ensures Hex(a + a) == s + s
  {
    HexAppend(a, a);
  }

  /** The calls of libsystemd-id128, each filling in one identifier. */
  datatype IdRequest = GetMachine | GetBoot | Randomize

  datatype IdEvent = IdEvent(request: IdRequest, rc: int)

  /** The library as the binding sees it: `reply(k, q)` is the return code of
      the k-th call `q`, and `idAt(k)` the identifier it writes. */
  class Library {
    const reply: (nat, IdRequest) -> int
    const idAt: nat -> Id
    var trace: seq<IdEvent>

    constructor (reply: (nat, IdRequest) -> int, idAt: nat -> Id)
      ensures this.reply == reply && this.idAt == idAt && trace == []
    {
      this.reply := reply;
      this.idAt := idAt;
      trace := [];
    }

    method Call(req: IdRequest) returns (rc: int, id: Id)
      modifies this`trace
      ensures rc == reply(old(|trace|), req) && id == idAt(old(|trace|))
      ensures trace == old(trace) + [IdEvent(req, rc)]
    {
      rc := reply(|trace|, req);
      id := idAt(|trace|);
      trace := trace + [IdEvent(req, rc)];
    }
  }

  /** The result of one call: the rendered identifier, or JournalError for a
      negative return code. */
  function Fetched(rc: int, id: Id): (r: Outcome<string>)
    ensures r.Raised? <==> rc < 0
    ensures r.Raised? ==> r.error == JournalError(rc)
    ensures r.Returned? ==> r.value == ToS(id)
    ensures !r.ReturnedNil?
  {
    if rc < 0 then Raised(JournalError(rc)) else Returned(ToS(id))
  }

  /** The module `Systemd::Id128` with its remembered identifiers
      (`@machine_id`, `@boot_id`). */
  class Ids {
    const lib: Library
    var machineId: Option<string>
    var bootId: Option<string>

    constructor (lib: Library)
      ensures this.lib == lib && machineId == None && bootId == None
    {
      this.lib := lib;
      machineId := None;
      bootId := None;
    }

    /** One call and its rendering, as `random` does it. */
    method Fetch(req: IdRequest) returns (r: Outcome<string>)
      modifies lib`trace
      ensures var k := old(|lib.trace|);
        r == Fetched(lib.reply(k, req), lib.idAt(k)) &&
        lib.trace == old(lib.trace) + [IdEvent(req, lib.reply(k, req))]
    {
      var rc, id := lib.Call(req);
      if rc < 0 {
        return Raised(JournalError(rc));
      }
      r := Returned(ToS(id));
    }

    /** `machine_id`: the remembered identifier without a call; otherwise one
        call, remembered only when it succeeds. */
    method MachineId() returns (r: Outcome<string>)
      modifies this`machineId, lib`trace
      ensures old(machineId).Some? ==>
        r == Returned(old(machineId).value) && machineId == old(machineId) && lib.trace == old(lib.trace)
      ensures old(machineId).None? ==>
        var k := old(|lib.trace|);
        r == Fetched(lib.reply(k, GetMachine), lib.idAt(k)) &&
        lib.trace == old(lib.trace) + [IdEvent(GetMachine, lib.reply(k, GetMachine))] &&
        machineId == (if r.Returned? then Some(r.value) else None)
    {
      if machineId.Some? {
        return Returned(machineId.value);
      }
      r := Fetch(GetMachine);
      if r.Returned? {
        machineId := Some(r.value);
      }
    }

    /** `boot_id`: remembered like `machine_id`. */
    method BootId() returns (r: Outcome<string>)
      modifies this`bootId, lib`trace
      ensures old(bootId).Some? ==>
        r == Returned(old(bootId).value) && bootId == old(bootId) && lib.trace == old(lib.trace)
      ensures old(bootId).None? ==>
        var k := old(|lib.trace|);
        r == Fetched(lib.reply(k, GetBoot), lib.idAt(k)) &&
        lib.trace == old(lib.trace) + [IdEvent(GetBoot, lib.reply(k, GetBoot))] &&
        bootId == (if r.Returned? then Some(r.value) else None)
    {
      if bootId.Some? {
        return Returned(bootId.value);
      }
      r := Fetch(GetBoot);
      if r.Returned? {
        bootId := Some(r.value);
      }
    }

    /** `random`: a call every time, nothing remembered. */
    method Random() returns (r: Outcome<string>)
      modifies lib`trace
      ensures var k := old(|lib.trace|);
        r == Fetched(lib.reply(k, Randomize), lib.idAt(k)) &&
        lib.trace == old(lib.trace) + [IdEvent(Randomize, lib.reply(k, Randomize))]
    {
      r := Fetch(Randomize);
    }
  }
}
