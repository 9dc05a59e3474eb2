/** lib/systemd/journal/compat.rb: writing to the journal the way the older
    systemd-journal gem did, with the syslog priority levels, a plain
    `print` and a structured `message` sent as a NULL-terminated vararg list
    of `:string` items. The library calls are the function `lib`: it maps a
    call to the return code the library answers. */
module Compat {
  import opened Outcomes
  import opened Text
  import opened Journal

  const LOG_EMERG := 0    // system is unusable
  const LOG_ALERT := 1    // action must be taken immediately
  const LOG_CRIT := 2     // critical conditions
  const LOG_ERR := 3      // error conditions
  const LOG_WARNING := 4  // warning conditions
  const LOG_NOTICE := 5   // normal but significant condition
  const LOG_INFO := 6     // informational
  const LOG_DEBUG := 7    // debug-level messages

  /** The levels from the most to the least severe. */
  function Levels(): (levels: seq<int>)
    ensures |levels| == 8
    ensures forall i, j :: 0 <= i < j < 8 ==> levels[i] < levels[j]
    ensures forall i :: 0 <= i < 8 ==> levels[i] == i
  {
    [LOG_EMERG, LOG_ALERT, LOG_CRIT, LOG_ERR, LOG_WARNING, LOG_NOTICE, LOG_INFO, LOG_DEBUG]
  }

  /** One argument of `sd_journal_send`: the type tag `:string`, a string,
      or the terminating `nil`. */
  datatype Item = StringTag | Text(text: string) | Null

  /** The library calls this file makes. */
  datatype LibCall =
    | JournalPrint(level: int, message: string)
    | JournalSend(items: seq<Item>)

  /** The `key=value` text of one field, the key upper-cased (`"#{k.to_s.upcase}=#{v}"`). */
  function FieldText(key: string, value: string): string {
    Upcase(key) + "=" + value
  }

  /** `contents.flat_map { |k, v| [:string, "K=v"] }`. */
  function FieldItems(contents: seq<(string, string)>): (items: seq<Item>)
    ensures |items| == 2 * |contents|
  {
    if contents == [] then []
    else [StringTag, Text(FieldText(contents[0].0, contents[0].1))] + FieldItems(contents[1..])
  }

  /** Field `i` becomes the items at 2i and 2i + 1: the tag, then its text. */
  lemma {:induction false} FieldItemsAt(contents: seq<(string, string)>, i: nat)
    requires i < |contents|
    ensures FieldItems(contents)[2 * i] == StringTag
    ensures FieldItems(contents)[2 * i + 1] == Text(FieldText(contents[i].0, contents[i].1))
  {
    if i > 0 {
      var rest := FieldItems(contents[1..]);
      assert FieldItems(contents) == [StringTag, Text(FieldText(contents[0].0, contents[0].1))] + rest;
      FieldItemsAt(contents[1..], i - 1);
      assert contents[1..][i - 1] == contents[i];
      assert FieldItems(contents)[2 * i] == rest[2 * (i - 1)];
      assert FieldItems(contents)[2 * i + 1] == rest[2 * (i - 1) + 1];
    }
  }

  /** The arguments of `message(contents)`: the field items followed by the
      terminator `:string, nil`. */
  function MessageItems(contents: seq<(string, string)>): (items: seq<Item>)
    ensures |items| == 2 * |contents| + 2
    ensures forall i :: 0 <= i < |items| && i % 2 == 0 ==> items[i] == StringTag
    ensures forall i :: 0 <= i < |contents| ==> items[2 * i + 1] == Text(FieldText(contents[i].0, contents[i].1))
    ensures items[|items| - 1] == Null
    ensures forall i :: 0 <= i < |items| - 1 ==> items[i] != Null
  {
    var fields := FieldItems(contents);
    var items := fields + [StringTag, Null];
    forall i | 0 <= i < |contents|
      ensures items[2 * i] == StringTag && items[2 * i + 1] == Text(FieldText(contents[i].0, contents[i].1))
    {
      FieldItemsAt(contents, i);
    }
    forall i | 0 <= i < |items| && i % 2 == 0
      ensures items[i] == StringTag
    {
      if i < 2 * |contents| {
        assert i == 2 * (i / 2);
      }
    }
    forall i | 0 <= i < |items| - 1
      ensures items[i] != Null
    {
      if i < 2 * |contents| {
        FieldItemsAt(contents, i / 2);
        assert i == 2 * (i / 2) || i == 2 * (i / 2) + 1;
      }
    }
    items
  }

  /** `print(level, message)`: the level and message go to the library
      unchanged; a negative return code raises, anything else gives the `nil`
      of the trailing `raise ... if`. */
  function Print(lib: LibCall -> int, level: int, message: string): (r: Outcome<()>)
    ensures r.Raised? <==> lib(JournalPrint(level, message)) < 0
    ensures r.Raised? ==> r.error == JournalError(lib(JournalPrint(level, message)))
    ensures !r.Returned?
  {
    var rc := lib(JournalPrint(level, message));
    if rc < 0 then Raised(JournalError(rc)) else ReturnedNil
  }

  /** `message(contents)`: one `sd_journal_send` with the items of
      `contents`, checked like `print`. */
  function Message(lib: LibCall -> int, contents: seq<(string, string)>): (r: Outcome<()>)
    ensures r.Raised? <==> lib(JournalSend(MessageItems(contents))) < 0
    ensures r.Raised? ==> r.error == JournalError(lib(JournalSend(MessageItems(contents))))
    ensures !r.Returned?
  {
    var items := MessageItems(contents);
    var rc := lib(JournalSend(items));
    if rc < 0 then Raised(JournalError(rc)) else ReturnedNil
  }

  /** Upper-casing neither adds nor removes `=`. */
  lemma UpcaseKeepsEquals(s: string)
    ensures '=' in Upcase(s) <==> '=' in s
  {
    if '=' in Upcase(s) {
      var i :| 0 <= i < |s| && Upcase(s)[i] == '=';
      assert UpChar(s[i]) == '=';
    }
    if '=' in s {
      var i :| 0 <= i < |s| && s[i] == '=';
      assert Upcase(s)[i] == '=';
    }
  }

  /** The journal reads each field item of a message back as the upper-cased
      key and the value, when the key has no `=`; the text after the first
      `=` is the value however many `=` it holds. */
  lemma MessageFieldsReadBack(contents: seq<(string, string)>, i: nat)
    requires i < |contents| && '=' !in contents[i].0
    ensures MessageItems(contents)[2 * i + 1].Text?
    ensures var text := MessageItems(contents)[2 * i + 1].text;
      FieldKey(text) == Some(Upcase(contents[i].0)) && FieldValue(text) == Some(contents[i].1)
  {
    UpcaseKeepsEquals(contents[i].0);
    FieldOfJoin(Upcase(contents[i].0), contents[i].1);
  }
}
