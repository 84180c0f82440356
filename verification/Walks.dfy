/**
 What the two walks over a message tree find.  Message names are collected by a
 walk that prefixes names on return; field numbers by a walk that pushes the
 prefix down and shares one map.  Both are characterised by the same chains of
 nested message names, so they agree on what a message is called.
 */
module Walks {
  import opened Base
  import opened Proto
  import opened Decimal
  import opened Extract

  /** A chain of names leads from the top level to a (nested) message. */
  ghost predicate IsPath(messages: seq<Message>, names: seq<string>)
    decreases names
  {
    names != [] &&
    exists m :: m in messages && m.name == names[0] &&
      (|names| == 1 || (m.body.Some? && IsPath(m.body.value.messages, names[1..])))
  }

  function Dotted(names: seq<string>): string
    requires names != []
  {
    if |names| == 1 then names[0] else names[0] + "." + Dotted(names[1..])
  }

  /** A numbered member of a message body. */
  datatype Slot = Slot(number: string, field: ParsedField)

  function RegularSlots(fields: seq<Field>): seq<Slot> {
    seq(|fields|, i requires 0 <= i < |fields| => Slot(fields[i].number, ParsedField(fields[i].name, fields[i].typ)))
  }

  function MapSlots(maps: seq<MapField>): seq<Slot> {
    seq(|maps|, i requires 0 <= i < |maps| => Slot(maps[i].number, ParsedField(maps[i].name, "map<" + maps[i].keyType + "," + maps[i].typ + ">")))
  }

  function MemberSlots(fields: seq<OneofField>): seq<Slot> {
    seq(|fields|, i requires 0 <= i < |fields| => Slot(fields[i].number, ParsedField(fields[i].name, fields[i].typ)))
  }

  function OneofSlots(oneofs: seq<Oneof>): seq<Slot> {
    if oneofs == [] then [] else OneofSlots(oneofs[..|oneofs| - 1]) + MemberSlots(oneofs[|oneofs| - 1].fields)
  }

  /** The fields, map fields and oneof members of a body. */
  function Slots(b: MessageBody): seq<Slot> {
    RegularSlots(b.fields) + MapSlots(b.maps) + OneofSlots(b.oneofs)
  }

  ghost predicate Holds(slots: seq<Slot>, number: int, field: ParsedField) {
    exists s :: s in slots && ParseProtoNumber(s.number) == Some(number) && s.field == field
  }

  /** The message body declares this number, as a field, a map field or a oneof member. */
  ghost predicate Declares(b: MessageBody, number: int, field: ParsedField) {
    Holds(Slots(b), number, field)
  }

  ghost predicate DeclaresAt(messages: seq<Message>, names: seq<string>, number: int, field: ParsedField)
    decreases names
  {
    names != [] &&
    exists m :: m in messages && m.name == names[0] && m.body.Some? &&
      (if |names| == 1 then Declares(m.body.value, number, field)
       else DeclaresAt(m.body.value.messages, names[1..], number, field))
  }

  /** The key names a number declared at some dotted path of the tree. */
  ghost predicate IsDeclaredKey(messages: seq<Message>, key: string) {
    exists names, n, field :: DeclaresAt(messages, names, n, field) && key == NumberKey(Dotted(names), n)
  }

  /** The key names a number under a message that the name walk found. */
  ghost predicate IsUnderPath(messages: seq<Message>, key: string) {
    exists path, n :: path in MessagePaths(messages) && key == NumberKey(path, n)
  }

  /** The key and the field are declared together at some dotted path of the tree. */
  ghost predicate IsDeclaredField(messages: seq<Message>, key: string, field: ParsedField) {
    exists names, n :: DeclaresAt(messages, names, n, field) && key == NumberKey(Dotted(names), n)
  }

  predicate NamedTops(messages: seq<Message>) {
    forall m :: m in messages ==> m.name != ""
  }

  // ---------------------------------------------------------------------------
  // The message-name walk

  lemma {:induction false} MessagePathsByMember(messages: seq<Message>, k: string)
    ensures k in MessagePaths(messages) <==> exists m :: m in messages && k in PathsOfMessage(m)
  {
    if messages != [] {
      var init, last := messages[..|messages| - 1], messages[|messages| - 1];
      MessagePathsByMember(init, k);
      assert messages == init + [last];
      assert MessagePaths(messages) == MessagePaths(init) + PathsOfMessage(last);
      assert last in messages;
      assert forall m :: m in messages <==> m in init || m == last;
    }
  }

  lemma {:induction false} PathOfName(messages: seq<Message>, k: string) returns (names: seq<string>)
    requires k in MessagePaths(messages)
    ensures IsPath(messages, names) && Dotted(names) == k
    decreases messages
  {
    MessagePathsByMember(messages, k);
    var m :| m in messages && k in PathsOfMessage(m);
    if k == m.name {
      names := [k];
    } else {
      var k' :| k' in MessagePaths(m.body.value.messages) && k == m.name + "." + k';
      var rest := PathOfName(m.body.value.messages, k');
      names := [m.name] + rest;
      assert names[1..] == rest;
    }
  }

  lemma {:induction false} NameOfPath(messages: seq<Message>, names: seq<string>)
    requires IsPath(messages, names)
    ensures Dotted(names) in MessagePaths(messages)
    decreases names
  {
    var m :| m in messages && m.name == names[0] &&
      (|names| == 1 || (m.body.Some? && IsPath(m.body.value.messages, names[1..])));
    if |names| > 1 {
      NameOfPath(m.body.value.messages, names[1..]);
    }
    assert Dotted(names) in PathsOfMessage(m);
    MessagePathsByMember(messages, Dotted(names));
  }

  /** The names found are exactly the dotted paths of the tree. */
  lemma MessageNamesAreDottedPaths(messages: seq<Message>, k: string)
    ensures k in MessagePaths(messages) <==> exists names :: IsPath(messages, names) && Dotted(names) == k
  {
    if k in MessagePaths(messages) {
      var names := PathOfName(messages, k);
    }
    if names :| IsPath(messages, names) && Dotted(names) == k {
      NameOfPath(messages, names);
    }
  }

  // ---------------------------------------------------------------------------
  // The field walk

  function SlotEntries(path: string, slots: seq<Slot>): seq<Entry<ParsedField>> {
    if slots == [] then []
    else
      var s := slots[|slots| - 1];
      SlotEntries(path, slots[..|slots| - 1]) + Numbered(path, s.number, s.field)
  }

  lemma {:induction false} SlotEntriesConcat(path: string, a: seq<Slot>, b: seq<Slot>)
    ensures SlotEntries(path, a + b) == SlotEntries(path, a) + SlotEntries(path, b)
  {
    if b == [] {
      assert a + b == a;
    } else {
      var c := b[..|b| - 1];
      assert (a + b)[..|a + b| - 1] == a + c;
      SlotEntriesConcat(path, a, c);
    }
  }

  lemma {:induction false} RegularOfSlots(path: string, fields: seq<Field>)
    ensures RegularEntries(path, fields) == SlotEntries(path, RegularSlots(fields))
  {
    if fields != [] {
      var init := fields[..|fields| - 1];
      RegularOfSlots(path, init);
      assert RegularSlots(fields)[..|fields| - 1] == RegularSlots(init);
    }
  }

  lemma {:induction false} MapsOfSlots(path: string, maps: seq<MapField>)
    ensures MapEntries(path, maps) == SlotEntries(path, MapSlots(maps))
  {
    if maps != [] {
      var init := maps[..|maps| - 1];
      MapsOfSlots(path, init);
      assert MapSlots(maps)[..|maps| - 1] == MapSlots(init);
    }
  }

  lemma {:induction false} MembersOfSlots(path: string, fields: seq<OneofField>)
    ensures OneofFieldEntries(path, fields) == SlotEntries(path, MemberSlots(fields))
  {
    if fields != [] {
      var init := fields[..|fields| - 1];
      MembersOfSlots(path, init);
      assert MemberSlots(fields)[..|fields| - 1] == MemberSlots(init);
    }
  }

  lemma {:induction false} OneofsOfSlots(path: string, oneofs: seq<Oneof>)
    ensures OneofEntries(path, oneofs) == SlotEntries(path, OneofSlots(oneofs))
  {
    if oneofs != [] {
      var init, last := oneofs[..|oneofs| - 1], oneofs[|oneofs| - 1];
      OneofsOfSlots(path, init);
      MembersOfSlots(path, last.fields);
      SlotEntriesConcat(path, OneofSlots(init), MemberSlots(last.fields));
    }
  }

  lemma OwnEntriesOfSlots(path: string, b: MessageBody)
    ensures OwnEntries(path, b) == SlotEntries(path, Slots(b))
  {
    RegularOfSlots(path, b.fields);
    MapsOfSlots(path, b.maps);
    OneofsOfSlots(path, b.oneofs);
    SlotEntriesConcat(path, RegularSlots(b.fields), MapSlots(b.maps));
    SlotEntriesConcat(path, RegularSlots(b.fields) + MapSlots(b.maps), OneofSlots(b.oneofs));
  }

  lemma {:induction false} HeldBySlot(path: string, slots: seq<Slot>, e: Entry<ParsedField>) returns (n: int)
    requires e in SlotEntries(path, slots)
    ensures Holds(slots, n, e.value) && e.key == NumberKey(path, n)
  {
    var init, last := slots[..|slots| - 1], slots[|slots| - 1];
    if e in SlotEntries(path, init) {
      n := HeldBySlot(path, init, e);
      var s :| s in init && ParseProtoNumber(s.number) == Some(n) && s.field == e.value;
      assert s in slots;
    } else {
      n := ParseProtoNumber(last.number).value;
      assert last in slots;
    }
  }

  lemma {:induction false} SlotIsWritten(path: string, slots: seq<Slot>, s: Slot, n: int)
    requires s in slots && ParseProtoNumber(s.number) == Some(n)
    ensures Entry(NumberKey(path, n), s.field) in SlotEntries(path, slots)
  {
    var init, last := slots[..|slots| - 1], slots[|slots| - 1];
    if s == last {
      assert Entry(NumberKey(path, n), s.field) in Numbered(path, s.number, s.field);
    } else {
      SlotIsWritten(path, init, s, n);
    }
  }

  lemma SomeMember<T>(xs: seq<T>, holds: T -> bool)
    requires xs != []
    ensures (exists x :: x in xs && holds(x)) <==> holds(xs[|xs| - 1]) || exists x :: x in xs[..|xs| - 1] && holds(x)
  {
    assert xs == xs[..|xs| - 1] + [xs[|xs| - 1]];
  }

  lemma {:induction false} EntriesByMember(messages: seq<Message>, prefix: string, e: Entry<ParsedField>)
    ensures e in FieldEntries(messages, prefix) <==> exists m :: m in messages && e in EntriesOfMessage(m, prefix)
  {
    if messages != [] {
      EntriesByMember(messages[..|messages| - 1], prefix, e);
      SomeMember(messages, m => e in EntriesOfMessage(m, prefix));
    }
  }

  /** Pushing the prefix down builds the same text as prefixing on return. */
  lemma QualifyNested(prefix: string, name: string, rest: seq<string>)
    requires rest != []
    requires prefix != "" || name != ""
    ensures Qualify(Qualify(prefix, name), Dotted(rest)) == Qualify(prefix, Dotted([name] + rest))
  {
    assert ([name] + rest)[1..] == rest;
    if prefix != "" {
      assert prefix + "." + name + "." + Dotted(rest) == prefix + "." + (name + "." + Dotted(rest));
    }
  }

  lemma {:induction false} DeclarationOfEntry(messages: seq<Message>, prefix: string, e: Entry<ParsedField>)
    returns (names: seq<string>, n: int)
    requires prefix != "" || NamedTops(messages)
    requires e in FieldEntries(messages, prefix)
    ensures DeclaresAt(messages, names, n, e.value) && e.key == NumberKey(Qualify(prefix, Dotted(names)), n)
    decreases messages
  {
    EntriesByMember(messages, prefix, e);
    var m :| m in messages && e in EntriesOfMessage(m, prefix);
    var path, b := Qualify(prefix, m.name), m.body.value;
    if e in OwnEntries(path, b) {
      OwnEntriesOfSlots(path, b);
      n := HeldBySlot(path, Slots(b), e);
      names := [m.name];
    } else {
      var rest;
      rest, n := DeclarationOfEntry(b.messages, path, e);
      names := [m.name] + rest;
      assert names[1..] == rest;
      QualifyNested(prefix, m.name, rest);
    }
  }

  lemma {:induction false} EntryOfDeclaration(
      messages: seq<Message>, prefix: string, names: seq<string>, n: int, field: ParsedField)
    requires prefix != "" || NamedTops(messages)
    requires DeclaresAt(messages, names, n, field)
    ensures Entry(NumberKey(Qualify(prefix, Dotted(names)), n), field) in FieldEntries(messages, prefix)
    ensures IsPath(messages, names)
    decreases names
  {
    var m :| m in messages && m.name == names[0] && m.body.Some? &&
      (if |names| == 1 then Declares(m.body.value, n, field)
       else DeclaresAt(m.body.value.messages, names[1..], n, field));
    if |names| == 1 {
      OwnDeclaration(m, prefix, n, field);
    } else {
      var path := Qualify(prefix, m.name);
      EntryOfDeclaration(m.body.value.messages, path, names[1..], n, field);
      assert names == [m.name] + names[1..];
      QualifyNested(prefix, m.name, names[1..]);
    }
    EntriesByMember(messages, prefix, Entry(NumberKey(Qualify(prefix, Dotted(names)), n), field));
  }

  lemma OwnDeclaration(m: Message, prefix: string, n: int, field: ParsedField)
    requires m.body.Some? && Declares(m.body.value, n, field)
    ensures Entry(NumberKey(Qualify(prefix, m.name), n), field) in EntriesOfMessage(m, prefix)
  {
    var path, b := Qualify(prefix, m.name), m.body.value;
    var s :| s in Slots(b) && ParseProtoNumber(s.number) == Some(n) && s.field == field;
    SlotIsWritten(path, Slots(b), s, n);
    OwnEntriesOfSlots(path, b);
  }

  /**
   The two walks agree: the field keys are exactly `path#number` for the numbers declared at the
   dotted paths of the tree, and each such path is one that the message-name walk finds.
   */
  lemma WalksAgree(messages: seq<Message>, key: string)
    requires NamedTops(messages)
    ensures key in FieldsByNumber(messages) <==> IsDeclaredKey(messages, key)
    ensures key in FieldsByNumber(messages) ==> IsUnderPath(messages, key)
    ensures key in FieldsByNumber(messages) ==> IsDeclaredField(messages, key, FieldsByNumber(messages)[key])
  {
    if key in FieldsByNumber(messages) {
      var names, n, field := DeclarationOfKey(messages, key);
      assert IsDeclaredKey(messages, key) && IsUnderPath(messages, key);
    } else if IsDeclaredKey(messages, key) {
      var names, n, field :| DeclaresAt(messages, names, n, field) && key == NumberKey(Dotted(names), n);
      KeyOfDeclaration(messages, names, n, field);
      assert false;
    }
  }

  lemma KeyOfDeclaration(messages: seq<Message>, names: seq<string>, n: int, field: ParsedField)
    requires NamedTops(messages)
    requires DeclaresAt(messages, names, n, field)
    ensures NumberKey(Dotted(names), n) in FieldsByNumber(messages)
  {
    var entries := FieldEntries(messages, "");
    EntryOfDeclaration(messages, "", names, n, field);
    WriteKeys(entries, map[]);
    assert Entry(NumberKey(Dotted(names), n), field) in entries;
  }

  lemma DeclarationOfKey(messages: seq<Message>, key: string) returns (names: seq<string>, n: int, field: ParsedField)
    requires NamedTops(messages)
    requires key in FieldsByNumber(messages)
    ensures DeclaresAt(messages, names, n, field) && key == NumberKey(Dotted(names), n)
    ensures field == FieldsByNumber(messages)[key]
    ensures Dotted(names) in MessagePaths(messages)
  {
    WriteSource(FieldEntries(messages, ""), map[], key);
    field := FieldsByNumber(messages)[key];
    names, n := DeclarationOfEntry(messages, "", Entry(key, field));
    EntryOfDeclaration(messages, "", names, n, field);
    NameOfPath(messages, names);
  }

  ghost predicate KeysAreUnderPaths(messages: seq<Message>) {
    forall key :: key in FieldsByNumber(messages) ==> IsUnderPath(messages, key)
  }

  /** A top-level name keeps the walks in agreement, whatever its message holds, exactly when it is not empty. */
  lemma WalksAgreeIffNamed(name: string)
    ensures (forall body :: KeysAreUnderPaths([Message(name, body)])) <==> name != ""
  {
    if name != "" {
      forall body, key | key in FieldsByNumber([Message(name, body)])
        ensures IsUnderPath([Message(name, body)], key)
      {
        WalksAgree([Message(name, body)], key);
      }
    } else {
      UnnamedTopDisagrees();
    }
  }

  /** An unnamed top-level message: a nested field is filed under `X`, which the name walk calls `.X`. */
  lemma UnnamedTopDisagrees()
    ensures exists body :: !KeysAreUnderPaths([Message("", body)])
  {
    var inner := Message("X", Some(MessageBody([Field("f", "int32", "1", false)], [], [], [])));
    var top := Message("", Some(MessageBody([], [], [], [inner])));
    InnerFieldKey(inner, top);
    forall path, n | path in MessagePaths([top])
      ensures NumberKey("X", 1) != NumberKey(path, n)
    {
      UnnamedPaths(top, path);
      NumberKeyInjective("X", 1, path, n);
    }
    assert !KeysAreUnderPaths([top]);
  }

  lemma UnnamedPaths(top: Message, path: string)
    requires top.name == "" && path in MessagePaths([top])
    ensures path == "" || path[0] == '.'
  {
    var names := PathOfName([top], path);
    assert names[0] == "";
  }

  lemma InnerFieldKey(inner: Message, top: Message)
    requires inner == Message("X", Some(MessageBody([Field("f", "int32", "1", false)], [], [], [])))
    requires top == Message("", Some(MessageBody([], [], [], [inner])))
    ensures NumberKey("X", 1) in FieldsByNumber([top])
  {
    var b := inner.body.value;
    assert Slots(b)[0] == Slot("1", ParsedField("f", "int32"));
    ParseOfFormat(1);
    assert FormatInt(1) == "1";
    SlotIsWritten("X", Slots(b), Slots(b)[0], 1);
    OwnEntriesOfSlots("X", b);
    var e := Entry(NumberKey("X", 1), ParsedField("f", "int32"));
    assert e in EntriesOfMessage(inner, "");
    EntriesByMember([inner], "", e);
    assert e in EntriesOfMessage(top, "");
    EntriesByMember([top], "", e);
    WriteKeys(FieldEntries([top], ""), map[]);
  }

  // ---------------------------------------------------------------------------
  // The flat tables

  ghost predicate HasRpc(services: seq<Service>, service: string, r: Rpc) {
    exists s :: s in services && s.name == service && s.body.Some? && r in s.body.value
  }

  lemma {:induction false} RpcEntriesOfService(service: string, rpcs: seq<Rpc>, e: Entry<ParsedRpc>)
    ensures e in RpcEntriesIn(service, rpcs) <==>
            exists r :: r in rpcs && e == Entry(service + "." + r.name, RpcDetails(r))
  {
    if rpcs != [] {
      RpcEntriesOfService(service, rpcs[..|rpcs| - 1], e);
      SomeMember(rpcs, (r: Rpc) => e == Entry(service + "." + r.name, RpcDetails(r)));
    }
  }

  ghost predicate IsRpcEntry(services: seq<Service>, e: Entry<ParsedRpc>) {
    exists service, r :: HasRpc(services, service, r) && e == Entry(service + "." + r.name, RpcDetails(r))
  }

  lemma {:induction false} RpcEntriesByMember(services: seq<Service>, e: Entry<ParsedRpc>)
    ensures e in RpcEntries(services) <==> IsRpcEntry(services, e)
  {
    if services != [] {
      var init, last := services[..|services| - 1], services[|services| - 1];
      RpcEntriesByMember(init, e);
      assert services == init + [last];
      assert forall service, r ::
          HasRpc(services, service, r) <==>
          HasRpc(init, service, r) || (last.name == service && last.body.Some? && r in last.body.value);
      if last.body.Some? {
        RpcEntriesOfService(last.name, last.body.value, e);
        if e in RpcEntriesIn(last.name, last.body.value) {
          var r :| r in last.body.value && e == Entry(last.name + "." + r.name, RpcDetails(r));
          assert HasRpc(services, last.name, r);
        }
      }
      if IsRpcEntry(init, e) {
        var service, r :| HasRpc(init, service, r) && e == Entry(service + "." + r.name, RpcDetails(r));
        assert HasRpc(services, service, r);
      }
    }
  }

  /** The endpoint has this type and streaming; one that is not given has no type and does not stream. */
  predicate IsEndpoint(e: Option<Endpoint>, messageType: string, stream: bool) {
    match e
    case None => messageType == "" && !stream
    case Some(x) => messageType == x.messageType && stream == x.stream
  }

  /** An RPC of this name has these endpoints. */
  ghost predicate IsRpc(services: seq<Service>, key: string, details: ParsedRpc) {
    exists service, r :: HasRpc(services, service, r) && key == service + "." + r.name &&
      IsEndpoint(r.request, details.requestType, details.requestStream) &&
      IsEndpoint(r.response, details.responseType, details.responseStream)
  }

  /** The RPC table: a key for each `service.rpc`, bound to the types and streaming of an RPC of that name. */
  lemma RpcTable(services: seq<Service>, key: string)
    ensures key in RpcsByName(services) <==> exists details :: IsRpc(services, key, details)
    ensures key in RpcsByName(services) ==> IsRpc(services, key, RpcsByName(services)[key])
  {
    RpcEntryTable(services, key);
    forall details
      ensures IsRpc(services, key, details) <==> IsRpcEntry(services, Entry(key, details))
    {
      RpcEntryIsRpc(services, key, details);
    }
  }

  lemma RpcEntryIsRpc(services: seq<Service>, key: string, details: ParsedRpc)
    ensures IsRpc(services, key, details) <==> IsRpcEntry(services, Entry(key, details))
  {
    assert forall r: Rpc ::
      (IsEndpoint(r.request, details.requestType, details.requestStream) &&
       IsEndpoint(r.response, details.responseType, details.responseStream)) <==> details == RpcDetails(r);
  }

  lemma RpcEntryTable(services: seq<Service>, key: string)
    ensures key in RpcsByName(services) <==> exists details :: IsRpcEntry(services, Entry(key, details))
    ensures key in RpcsByName(services) ==> IsRpcEntry(services, Entry(key, RpcsByName(services)[key]))
  {
    var entries := RpcEntries(services);
    WriteKeys(entries, map[]);
    if key in RpcsByName(services) {
      WriteSource(entries, map[], key);
      RpcEntriesByMember(services, Entry(key, RpcsByName(services)[key]));
    }
    if details :| IsRpcEntry(services, Entry(key, details)) {
      RpcEntriesByMember(services, Entry(key, details));
    }
  }

  ghost predicate HasValue(enums: seq<EnumDef>, enum: string, v: EnumValue) {
    exists e :: e in enums && e.name == enum && e.body.Some? && v in e.body.value
  }

  ghost predicate IsValueEntry(enums: seq<EnumDef>, e: Entry<string>) {
    exists enum, v, n ::
      HasValue(enums, enum, v) && ParseProtoNumber(v.number) == Some(n) && e == Entry(NumberKey(enum, n), v.ident)
  }

  lemma {:induction false} ValueEntriesOfEnum(enum: string, values: seq<EnumValue>, e: Entry<string>)
    ensures e in ValueEntriesIn(enum, values) <==> exists v :: v in values && e in NumberedValue(enum, v)
  {
    if values != [] {
      ValueEntriesOfEnum(enum, values[..|values| - 1], e);
      SomeMember(values, v => e in NumberedValue(enum, v));
    }
  }

  lemma {:induction false} ValueEntriesByMember(enums: seq<EnumDef>, e: Entry<string>)
    ensures e in EnumValueEntries(enums) <==> exists enum, v :: HasValue(enums, enum, v) && e in NumberedValue(enum, v)
  {
    if enums != [] {
      var init, last := enums[..|enums| - 1], enums[|enums| - 1];
      ValueEntriesByMember(init, e);
      assert enums == init + [last];
      assert forall enum, v ::
          HasValue(enums, enum, v) <==>
          HasValue(init, enum, v) || (last.name == enum && last.body.Some? && v in last.body.value);
      if last.body.Some? {
        ValueEntriesOfEnum(last.name, last.body.value, e);
        if e in ValueEntriesIn(last.name, last.body.value) {
          var v :| v in last.body.value && e in NumberedValue(last.name, v);
          assert HasValue(enums, last.name, v);
        }
      }
    }
  }

  /** The enum-value table: `enum#number` for the numbers that parse, bound to the name of such a value. */
  lemma EnumValueTable(enums: seq<EnumDef>, key: string)
    ensures key in EnumValuesByNumber(enums) <==> exists ident :: IsValueEntry(enums, Entry(key, ident))
    ensures key in EnumValuesByNumber(enums) ==> IsValueEntry(enums, Entry(key, EnumValuesByNumber(enums)[key]))
  {
    var entries := EnumValueEntries(enums);
    WriteKeys(entries, map[]);
    if key in EnumValuesByNumber(enums) {
      WriteSource(entries, map[], key);
      var e := Entry(key, EnumValuesByNumber(enums)[key]);
      ValueEntriesByMember(enums, e);
      var enum, v :| HasValue(enums, enum, v) && e in NumberedValue(enum, v);
      assert IsValueEntry(enums, e);
    }
    if ident :| IsValueEntry(enums, Entry(key, ident)) {
      var enum, v, n :| HasValue(enums, enum, v) && ParseProtoNumber(v.number) == Some(n) &&
                        Entry(key, ident) == Entry(NumberKey(enum, n), v.ident);
      ValueEntriesByMember(enums, Entry(key, ident));
      assert Entry(key, ident) in NumberedValue(enum, v);
    }
  }
}
