/** lib/systemd/journal_entry.rb: one journal entry as a read-only record.
    Construction lists the field names in lower case and binds one accessor
    method per name, unless the object already answers to that name; nothing
    changes after construction. */
module Entries {
  import opened Outcomes
  import opened Text
  import opened OrderedMaps

  /** The hash an entry wraps: field name to value (`nil` is None). */
  type Record = OrderedMap<string, Option<string>>

  /** The accessors bound so far: method name to the value it returns. */
  type Accessors = map<string, Option<string>>

  /** A key given to `entry[key]`: a String or a Symbol. */
  datatype Key = Str(text: string) | Sym(name: string)

  /** `key.to_s`. */
  function ToS(key: Key): string {
    match key
    case Str(text) => text
    case Sym(name) => name
  }

  /** The names `initialize` derives, one per field in the record's order:
      `key.downcase.to_sym`. Keys that differ only in case give equal names,
      and each still has its place. */
  function FieldNames(entry: Record): (names: seq<string>)
    ensures |names| == |entry|
    ensures forall i :: 0 <= i < |entry| ==> names[i] == Downcase(entry[i].0)
  {
    seq(|entry|, i requires 0 <= i < |entry| => Downcase(entry[i].0))
  }

  /** Position, at `i` or later, of the first field whose name is `name`. */
  function FirstFieldFrom(entry: Record, name: string, i: nat): (r: Option<nat>)
    requires i <= |entry|
    ensures r.None? <==> forall m :: i <= m < |entry| ==> Downcase(entry[m].0) != name
    ensures r.Some? ==> i <= r.value < |entry| && Downcase(entry[r.value].0) == name &&
                        forall m :: i <= m < r.value ==> Downcase(entry[m].0) != name
    decreases |entry| - i
  {
    if i == |entry| then None
    else if Downcase(entry[i].0) == name then Some(i)
    else FirstFieldFrom(entry, name, i + 1)
  }

  /** The accessors reached from `acc` by processing the fields from position
      `i` on, on an object whose own methods are `builtins`: a name is bound
      to its field's value only if the object does not answer to it yet. */
  function BindFrom(acc: Accessors, entry: Record, builtins: set<string>, i: nat): Accessors
    decreases |entry| - i
  {
    if i >= |entry| then acc
    else
      var name := Downcase(entry[i].0);
      BindFrom(if name in builtins || name in acc then acc else acc[name := entry[i].1], entry, builtins, i + 1)
  }

  /** The accessors `initialize` binds. */
  function Bindings(entry: Record, builtins: set<string>): Accessors {
    BindFrom(map[], entry, builtins, 0)
  }

  /** A name is bound from position `i` on exactly when it was bound before,
      or it is not a method of the object and some later field carries it. */
  lemma {:induction false} BindFromNames(acc: Accessors, entry: Record, builtins: set<string>, i: nat, name: string)
    requires i <= |entry| && acc.Keys !! builtins
    ensures name in BindFrom(acc, entry, builtins, i) <==>
      name in acc || (name !in builtins && FirstFieldFrom(entry, name, i).Some?)
    decreases |entry| - i
  {
    if i < |entry| {
      var here := Downcase(entry[i].0);
      var acc' := if here in builtins || here in acc then acc else acc[here := entry[i].1];
      assert BindFrom(acc, entry, builtins, i) == BindFrom(acc', entry, builtins, i + 1);
      BindFromNames(acc', entry, builtins, i + 1, name);
    }
  }

  /** A name already bound keeps its value. */
  lemma {:induction false} BindFromKeeps(acc: Accessors, entry: Record, builtins: set<string>, i: nat, name: string)
    requires name in acc
    ensures name in BindFrom(acc, entry, builtins, i) && BindFrom(acc, entry, builtins, i)[name] == acc[name]
    decreases |entry| - i
  {
    if i < |entry| {
      var here := Downcase(entry[i].0);
      BindFromKeeps(if here in builtins || here in acc then acc else acc[here := entry[i].1],
                    entry, builtins, i + 1, name);
    }
  }

  /** A name not bound yet and not a method of the object gets the value of
      the first field, from position `i` on, that carries it. */
  lemma {:induction false} BindFromFirst(acc: Accessors, entry: Record, builtins: set<string>, i: nat, name: string)
    requires i <= |entry| && name !in acc && name !in builtins
    requires FirstFieldFrom(entry, name, i).Some?
    ensures name in BindFrom(acc, entry, builtins, i)
    ensures BindFrom(acc, entry, builtins, i)[name] == entry[FirstFieldFrom(entry, name, i).value].1
    decreases |entry| - i
  {
    var here := Downcase(entry[i].0);
    if here == name {
      BindFromKeeps(acc[name := entry[i].1], entry, builtins, i + 1, name);
    } else {
      var acc' := if here in builtins || here in acc then acc else acc[here := entry[i].1];
      BindFromFirst(acc', entry, builtins, i + 1, name);
    }
  }

  /** Accessors never shadow a method the object already has, and every
      other field name gets one. */
  lemma AccessorNames(entry: Record, builtins: set<string>, name: string)
    ensures name in Bindings(entry, builtins) <==> name !in builtins && name in FieldNames(entry)
  {
    BindFromNames(map[], entry, builtins, 0, name);
    if name in FieldNames(entry) {
      var i :| 0 <= i < |entry| && FieldNames(entry)[i] == name;
      assert Downcase(entry[i].0) == name;
    }
  }

  /** When several keys lower-case to one name, the first of them binds the
      accessor; the later ones leave it alone. */
  lemma FirstBindingWins(entry: Record, builtins: set<string>, i: nat)
    requires i < |entry| && Downcase(entry[i].0) !in builtins
    requires forall m :: 0 <= m < i ==> Downcase(entry[m].0) != Downcase(entry[i].0)
    ensures Downcase(entry[i].0) in Bindings(entry, builtins)
    ensures Bindings(entry, builtins)[Downcase(entry[i].0)] == entry[i].1
  {
    var name := Downcase(entry[i].0);
    BindFromFirst(map[], entry, builtins, 0, name);
    assert FirstFieldFrom(entry, name, 0) == Some(i);
  }

  /** The entry `_PID=125`, `_EXE=/usr/bin/sshd`, `PRIORITY=4`, `OBJECT_ID=:)`. */
  function SampleRecord(): (entry: Record)
    ensures UniqueKeys(entry)
  {
    [("_PID", Some("125")), ("_EXE", Some("/usr/bin/sshd")), ("PRIORITY", Some("4")), ("OBJECT_ID", Some(":)"))]
  }

  /** On that entry, with `object_id` a method of every object: the fields are
      listed lower-cased in order, `_pid` and `priority` get accessors, and
      `object_id` keeps its own method. */
  lemma SampleBindings(builtins: set<string>)
    requires "object_id" in builtins && "_pid" !in builtins && "_exe" !in builtins && "priority" !in builtins
    ensures FieldNames(SampleRecord()) == ["_pid", "_exe", "priority", "object_id"]
    ensures Bindings(SampleRecord(), builtins) ==
      map["_pid" := Some("125"), "_exe" := Some("/usr/bin/sshd"), "priority" := Some("4")]
  {
    var e := SampleRecord();
    assert Downcase("_PID") == "_pid";
    assert Downcase("_EXE") == "_exe";
    assert Downcase("PRIORITY") == "priority";
    assert Downcase("OBJECT_ID") == "object_id";
    var m1 := map["_pid" := Some("125")];
    var m2 := m1["_exe" := Some("/usr/bin/sshd")];
    var m3 := m2["priority" := Some("4")];
    assert BindFrom(map[], e, builtins, 0) == BindFrom(m1, e, builtins, 1);
    assert BindFrom(m1, e, builtins, 1) == BindFrom(m2, e, builtins, 2);
    assert BindFrom(m2, e, builtins, 2) == BindFrom(m3, e, builtins, 3);
    assert BindFrom(m3, e, builtins, 3) == BindFrom(m3, e, builtins, 4);
  }

  /** What sending a method name to an entry does. */
  datatype Dispatch =
    | Builtin                       // a method the object had before construction runs unchanged
    | Accessor(value: Option<string>) // a bound accessor returns the value captured at construction
    | Missing                       // any other name raises NoMethodError

  /** The value stored under `k` that is neither absent nor `nil`. */
  predicate HoldsValue(entry: Record, k: string)
    requires UniqueKeys(entry)
  {
    var v := Get(entry, k);
    v.Some? && v.value.Some?
  }

  class JournalEntry {
    const entry: Record          // `@entry`
    const builtins: set<string>  // the methods the object answers to before `initialize` binds any
    var fields: seq<string>      // `@fields`
    var accessors: Accessors     // the singleton methods `initialize` defines

    /** The state `initialize` leaves, and never changes afterwards. */
    ghost predicate Valid()
      reads this
    {
      UniqueKeys(entry) && fields == FieldNames(entry) && accessors == Bindings(entry, builtins)
    }

    /** `respond_to?(name)`. */
    predicate RespondsTo(name: string)
      reads this
    {
      name in builtins || name in accessors
    }

    /** `initialize(entry)`: maps every key to its lower-cased name and, going
        through the fields in order, defines an accessor returning the field's
        value unless the object already responds to the name. */
    constructor (entry: Record, builtins: set<string>)
      requires UniqueKeys(entry)
      ensures this.entry == entry && this.builtins == builtins
      ensures Valid()
    {
      this.entry := entry;
      this.builtins := builtins;
      accessors := map[];
      new;
      var names: seq<string> := [];
      var i := 0;
      while i < |entry|
        invariant i <= |entry|
        invariant |names| == i && forall m :: 0 <= m < i ==> names[m] == Downcase(entry[m].0)
        invariant BindFrom(accessors, entry, builtins, i) == Bindings(entry, builtins)
      {
        var key := entry[i].0;
        var value := entry[i].1;
        var name := Downcase(key);
        if !RespondsTo(name) {
          accessors := accessors[name := value];
        }
        names := names + [name];
        i := i + 1;
      }
      fields := names;
    }

    /** Sending `name` to the entry: the object's own methods win, a field
        name the first field carrying it answers, anything else is missing. */
    function Send(name: string): (r: Dispatch)
      requires Valid()
      reads this
      ensures r == Builtin <==> name in builtins
      ensures r == Missing <==> name !in builtins && name !in fields
      ensures r.Accessor? ==>
        var first := FirstFieldFrom(entry, name, 0);
        first.Some? && r.value == entry[first.value].1
    {
      AccessorNames(entry, builtins, name);
      if name in builtins then Builtin
      else if name in accessors then
        var first := FirstFieldFrom(entry, name, 0);
        FirstBindingWins(entry, builtins, first.value);
        Accessor(accessors[name])
      else Missing
    }

    /** `entry[key]`: the value under `key` itself unless it is absent or
        `nil`, otherwise the value under `key.to_s.upcase`. A Symbol never
        equals a String key, so it is only looked up upper-cased. */
    function Lookup(key: Key): (r: Option<string>)
      requires UniqueKeys(entry)
      ensures key.Str? && HoldsValue(entry, key.text) ==> r == Get(entry, key.text).value
      ensures r.Some? ==> (key.Str? && (key.text, r) in entry) || (Upcase(ToS(key)), r) in entry
      ensures r.None? ==> !(key.Str? && HoldsValue(entry, key.text)) && !HoldsValue(entry, Upcase(ToS(key)))
    {
      var direct := if key.Str? then Get(entry, key.text) else None;
      if direct.Some? && direct.value.Some? then direct.value
      else
        match Get(entry, Upcase(ToS(key)))
        case Some(v) => v
        case None => None
    }

    /** `each`: yields every `[key, value]` pair of the record in order. */
    function Each(): (pairs: seq<(string, Option<string>)>)
      ensures |pairs| == |entry|
      ensures forall i :: 0 <= i < |entry| ==> pairs[i] == entry[i]
    {
      entry
    }

    /** Each yielded pair is what `entry[key]` returns for its String key,
        unless its value is `nil`, and its name is the field listed at the
        same position. */
    lemma EachAgrees(i: nat)
      requires Valid() && i < |Each()|
      ensures Each()[i].1.Some? ==> Lookup(Str(Each()[i].0)) == Each()[i].1
      ensures fields[i] == Downcase(Each()[i].0)
    {
      GetAt(entry, i);
    }

    /** On the sample entry: `_pid` answers its field, `object_id` stays the
        object's own method, `froobaz` is missing, and `[]` finds `OBJECT_ID`
        by its own name and, upper-cased, from the Symbol `:object_id`. */
    lemma SampleDispatch()
      requires Valid() && entry == SampleRecord()
      requires "object_id" in builtins && "froobaz" !in builtins
      requires "_pid" !in builtins && "_exe" !in builtins && "priority" !in builtins
      ensures Send("_pid") == Accessor(Some("125")) && Send("priority") == Accessor(Some("4"))
      ensures Send("object_id") == Builtin && Send("froobaz") == Missing
      ensures Lookup(Str("OBJECT_ID")) == Some(":)") && Lookup(Sym("object_id")) == Some(":)")
    {
      SampleBindings(builtins);
      assert Upcase("object_id") == "OBJECT_ID";
      GetAt(entry, 3);
    }
  }
}
