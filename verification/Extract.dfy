/**
 The walks over a parsed file that build the keyed contract maps.  Each walk is
 a loop (recursive for nested messages) proved against a function of the tree.
 */
module Extract {
  import opened Base
  import opened Proto
  import opened Decimal

  datatype ParsedField = ParsedField(name: string, typ: string)

  datatype ParsedRpc = ParsedRpc(requestType: string, responseType: string, requestStream: bool, responseStream: bool)

  /** One write `result[key] = value` made by a walk. */
  datatype Entry<+V> = Entry(key: string, value: V)

  /** The map after making the writes in order: a later write to a key wins. */
  function Write<V>(entries: seq<Entry<V>>, onto: map<string, V>): map<string, V> {
    if entries == [] then onto
    else
      var last := entries[|entries| - 1];
      Write(entries[..|entries| - 1], onto)[last.key := last.value]
  }

  lemma {:induction false} WriteConcat<V>(a: seq<Entry<V>>, b: seq<Entry<V>>, onto: map<string, V>)
    ensures Write(a + b, onto) == Write(b, Write(a, onto))
  {
    if b == [] {
      assert a + b == a;
    } else {
      var c := b[..|b| - 1];
      assert (a + b)[..|a + b| - 1] == a + c;
      WriteConcat(a, c, onto);
    }
  }

  lemma {:induction false} WriteKeys<V>(entries: seq<Entry<V>>, onto: map<string, V>)
    ensures Write(entries, onto).Keys == onto.Keys + set e | e in entries :: e.key
  {
    if entries != [] {
      var init, last := entries[..|entries| - 1], entries[|entries| - 1];
      WriteKeys(init, onto);
      assert entries == init + [last];
      assert forall e :: e in entries <==> e in init || e == last;
    }
  }

  /** The latest write of a key is the one that counts. */
  lemma {:induction false} WriteLatest<V>(entries: seq<Entry<V>>, onto: map<string, V>, i: nat)
    requires i < |entries| && forall j :: i < j < |entries| ==> entries[j].key != entries[i].key
    ensures entries[i].key in Write(entries, onto) && Write(entries, onto)[entries[i].key] == entries[i].value
  {
    if i < |entries| - 1 {
      WriteLatest(entries[..|entries| - 1], onto, i);
    }
  }

  /** Every binding of the result was there before or was written. */
  lemma {:induction false} WriteSource<V>(entries: seq<Entry<V>>, onto: map<string, V>, key: string)
    requires key in Write(entries, onto)
    ensures (key in onto && Write(entries, onto)[key] == onto[key]) || Entry(key, Write(entries, onto)[key]) in entries
  {
    if entries != [] {
      var init, last := entries[..|entries| - 1], entries[|entries| - 1];
      if last.key != key {
        WriteSource(init, onto, key);
      }
    }
  }

  // ---------------------------------------------------------------------------
  // Message names: prefixed on return from the recursion

  function MessagePaths(messages: seq<Message>): set<string> {
    if messages == [] then {}
    else MessagePaths(messages[..|messages| - 1]) + PathsOfMessage(messages[|messages| - 1])
  }

  function PathsOfMessage(m: Message): set<string> {
    {m.name} + (match m.body
                case None => {}
                case Some(b) => Prefixed(m.name, MessagePaths(b.messages)))
  }

  function Prefixed(prefix: string, names: set<string>): set<string> {
    set k | k in names :: prefix + "." + k
  }

  /** Copies the nested names, one by one and in any order, under their message's name. */
  method AddPrefixed(into: set<string>, prefix: string, names: set<string>) returns (result: set<string>)
    ensures result == into + Prefixed(prefix, names)
  {
    result := into;
    var rest := names;
    while rest != {}
      invariant rest <= names
      invariant result == into + Prefixed(prefix, names - rest)
      decreases |rest|
    {
      var k :| k in rest;
      assert names - (rest - {k}) == (names - rest) + {k};
      result := result + {prefix + "." + k};
      rest := rest - {k};
    }
    assert names - {} == names;
  }

  method ExtractMessages(messages: seq<Message>) returns (result: set<string>)
    ensures result == MessagePaths(messages)
  {
    result := {};
    for i := 0 to |messages|
      invariant result == MessagePaths(messages[..i])
    {
      var m := messages[i];
      result := result + {m.name};
      if m.body.Some? {
        var nested := ExtractMessages(m.body.value.messages);
        result := AddPrefixed(result, m.name, nested);
      }
      assert messages[..i + 1][..i] == messages[..i];
    }
    assert messages[..|messages|] == messages;
  }

  // ---------------------------------------------------------------------------
  // Fields by number: prefix pushed down, one accumulator shared by the recursion

  function Qualify(prefix: string, name: string): string {
    if prefix != "" then prefix + "." + name else name
  }

  function Numbered(path: string, number: string, field: ParsedField): seq<Entry<ParsedField>> {
    match ParseProtoNumber(number)
    case None => []
    case Some(n) => [Entry(NumberKey(path, n), field)]
  }

  function MapType(f: MapField): string {
    "map<" + f.keyType + "," + f.typ + ">"
  }

  function RegularEntries(path: string, fields: seq<Field>): seq<Entry<ParsedField>> {
    if fields == [] then []
    else
      var f := fields[|fields| - 1];
      RegularEntries(path, fields[..|fields| - 1]) + Numbered(path, f.number, ParsedField(f.name, f.typ))
  }

  function MapEntries(path: string, maps: seq<MapField>): seq<Entry<ParsedField>> {
    if maps == [] then []
    else
      var f := maps[|maps| - 1];
      MapEntries(path, maps[..|maps| - 1]) + Numbered(path, f.number, ParsedField(f.name, MapType(f)))
  }

  function OneofFieldEntries(path: string, fields: seq<OneofField>): seq<Entry<ParsedField>> {
    if fields == [] then []
    else
      var f := fields[|fields| - 1];
      OneofFieldEntries(path, fields[..|fields| - 1]) + Numbered(path, f.number, ParsedField(f.name, f.typ))
  }

  function OneofEntries(path: string, oneofs: seq<Oneof>): seq<Entry<ParsedField>> {
    if oneofs == [] then []
    else OneofEntries(path, oneofs[..|oneofs| - 1]) + OneofFieldEntries(path, oneofs[|oneofs| - 1].fields)
  }

  /** The writes for one message body at a path, nested messages excluded. */
  function OwnEntries(path: string, b: MessageBody): seq<Entry<ParsedField>> {
    RegularEntries(path, b.fields) + MapEntries(path, b.maps) + OneofEntries(path, b.oneofs)
  }

  function FieldEntries(messages: seq<Message>, prefix: string): seq<Entry<ParsedField>> {
    if messages == [] then []
    else FieldEntries(messages[..|messages| - 1], prefix) + EntriesOfMessage(messages[|messages| - 1], prefix)
  }

  function EntriesOfMessage(m: Message, prefix: string): seq<Entry<ParsedField>> {
    match m.body
    case None => []
    case Some(b) =>
      var path := Qualify(prefix, m.name);
      OwnEntries(path, b) + FieldEntries(b.messages, path)
  }

  function FieldsByNumber(messages: seq<Message>): map<string, ParsedField> {
    Write(FieldEntries(messages, ""), map[])
  }

  /** The map that the recursive calls share. */
  class FieldTable {
    var entries: map<string, ParsedField>

    constructor ()
      ensures entries == map[]
    {
      entries := map[];
    }

    method Put(path: string, number: string, field: ParsedField)
      modifies this
      ensures entries == Write(Numbered(path, number, field), old(entries))
    {
      var parsed := ParseProtoNumber(number);
      if parsed.Some? {
        entries := entries[NumberKey(path, parsed.value) := field];
      }
    }
  }

  method ExtractRegularFields(path: string, fields: seq<Field>, result: FieldTable)
    modifies result
    ensures result.entries == Write(RegularEntries(path, fields), old(result.entries))
  {
    for i := 0 to |fields|
      invariant result.entries == Write(RegularEntries(path, fields[..i]), old(result.entries))
    {
      var f := fields[i];
      assert fields[..i + 1][..i] == fields[..i];
      WriteConcat(RegularEntries(path, fields[..i]), Numbered(path, f.number, ParsedField(f.name, f.typ)), old(result.entries));
      result.Put(path, f.number, ParsedField(f.name, f.typ));
    }
    assert fields[..|fields|] == fields;
  }

  method ExtractMapFields(path: string, maps: seq<MapField>, result: FieldTable)
    modifies result
    ensures result.entries == Write(MapEntries(path, maps), old(result.entries))
  {
    for i := 0 to |maps|
      invariant result.entries == Write(MapEntries(path, maps[..i]), old(result.entries))
    {
      var f := maps[i];
      assert maps[..i + 1][..i] == maps[..i];
      WriteConcat(MapEntries(path, maps[..i]), Numbered(path, f.number, ParsedField(f.name, MapType(f))), old(result.entries));
      result.Put(path, f.number, ParsedField(f.name, MapType(f)));
    }
    assert maps[..|maps|] == maps;
  }

  method ExtractOneofFields(path: string, oneofs: seq<Oneof>, result: FieldTable)
    modifies result
    ensures result.entries == Write(OneofEntries(path, oneofs), old(result.entries))
  {
    for i := 0 to |oneofs|
      invariant result.entries == Write(OneofEntries(path, oneofs[..i]), old(result.entries))
    {
      var fields := oneofs[i].fields;
      ghost var before := result.entries;
      for j := 0 to |fields|
        invariant result.entries == Write(OneofFieldEntries(path, fields[..j]), before)
      {
        var f := fields[j];
        assert fields[..j + 1][..j] == fields[..j];
        WriteConcat(OneofFieldEntries(path, fields[..j]), Numbered(path, f.number, ParsedField(f.name, f.typ)), before);
        result.Put(path, f.number, ParsedField(f.name, f.typ));
      }
      assert fields[..|fields|] == fields;
      assert oneofs[..i + 1][..i] == oneofs[..i];
      WriteConcat(OneofEntries(path, oneofs[..i]), OneofFieldEntries(path, fields), old(result.entries));
    }
    assert oneofs[..|oneofs|] == oneofs;
  }

  method ExtractFieldsWithPrefix(messages: seq<Message>, prefix: string, result: FieldTable)
    modifies result
    ensures result.entries == Write(FieldEntries(messages, prefix), old(result.entries))
  {
    for i := 0 to |messages|
      invariant result.entries == Write(FieldEntries(messages[..i], prefix), old(result.entries))
    {
      var m := messages[i];
      assert messages[..i + 1][..i] == messages[..i];
      assert m.body.None? ==> FieldEntries(messages[..i], prefix) + [] == FieldEntries(messages[..i], prefix);
      if m.body.Some? {
        var path := if prefix != "" then prefix + "." + m.name else m.name;
        var b := m.body.value;
        ghost var before := result.entries;
        ExtractRegularFields(path, b.fields, result);
        ExtractMapFields(path, b.maps, result);
        ExtractOneofFields(path, b.oneofs, result);
        ExtractFieldsWithPrefix(b.messages, path, result);
        BodyWrites(path, b, before);
        WriteConcat(FieldEntries(messages[..i], prefix), EntriesOfMessage(m, prefix), old(result.entries));
      }
    }
    assert messages[..|messages|] == messages;
  }

  lemma BodyWrites(path: string, b: MessageBody, onto: map<string, ParsedField>)
    ensures Write(OwnEntries(path, b) + FieldEntries(b.messages, path), onto)
         == Write(FieldEntries(b.messages, path),
              Write(OneofEntries(path, b.oneofs),
                Write(MapEntries(path, b.maps),
                  Write(RegularEntries(path, b.fields), onto))))
  {
    var r, m, o := RegularEntries(path, b.fields), MapEntries(path, b.maps), OneofEntries(path, b.oneofs);
    WriteConcat(r + m + o, FieldEntries(b.messages, path), onto);
    WriteConcat(r + m, o, onto);
    WriteConcat(r, m, onto);
  }

  method ExtractFieldsByNumber(messages: seq<Message>) returns (result: map<string, ParsedField>)
    ensures result == FieldsByNumber(messages)
  {
    var table := new FieldTable();
    ExtractFieldsWithPrefix(messages, "", table);
    result := table.entries;
  }

  // ---------------------------------------------------------------------------
  // Services, RPCs, enums, required fields

  function ServiceNames(services: seq<Service>): set<string> {
    set s | s in services :: s.name
  }

  function EnumNames(enums: seq<EnumDef>): set<string> {
    set e | e in enums :: e.name
  }

  method ExtractServices(services: seq<Service>) returns (result: set<string>)
    ensures result == ServiceNames(services)
  {
    result := {};
    for i := 0 to |services|
      invariant result == ServiceNames(services[..i])
    {
      result := result + {services[i].name};
    }
    assert services[..|services|] == services;
  }

  method ExtractEnums(enums: seq<EnumDef>) returns (result: set<string>)
    ensures result == EnumNames(enums)
  {
    result := {};
    for i := 0 to |enums|
      invariant result == EnumNames(enums[..i])
    {
      result := result + {enums[i].name};
    }
    assert enums[..|enums|] == enums;
  }

  function RpcDetails(r: Rpc): ParsedRpc {
    ParsedRpc(if r.request.Some? then r.request.value.messageType else "",
              if r.response.Some? then r.response.value.messageType else "",
              r.request.Some? && r.request.value.stream,
              r.response.Some? && r.response.value.stream)
  }

  function RpcEntriesIn(service: string, rpcs: seq<Rpc>): seq<Entry<ParsedRpc>> {
    if rpcs == [] then []
    else
      var r := rpcs[|rpcs| - 1];
      RpcEntriesIn(service, rpcs[..|rpcs| - 1]) + [Entry(service + "." + r.name, RpcDetails(r))]
  }

  function RpcEntries(services: seq<Service>): seq<Entry<ParsedRpc>> {
    if services == [] then []
    else
      var s := services[|services| - 1];
      RpcEntries(services[..|services| - 1]) + (if s.body.Some? then RpcEntriesIn(s.name, s.body.value) else [])
  }

  function RpcsByName(services: seq<Service>): map<string, ParsedRpc> {
    Write(RpcEntries(services), map[])
  }

  method ExtractRpcsOfService(service: string, rpcs: seq<Rpc>, into: map<string, ParsedRpc>)
    returns (result: map<string, ParsedRpc>)
    ensures result == Write(RpcEntriesIn(service, rpcs), into)
  {
    result := into;
    for j := 0 to |rpcs|
      invariant result == Write(RpcEntriesIn(service, rpcs[..j]), into)
    {
      var r := rpcs[j];
      assert rpcs[..j + 1][..j] == rpcs[..j];
      WriteConcat(RpcEntriesIn(service, rpcs[..j]), [Entry(service + "." + r.name, RpcDetails(r))], into);
      WriteOne(Entry(service + "." + r.name, RpcDetails(r)), result);
      var requestType, requestStream := "", false;
      if r.request.Some? {
        requestType, requestStream := r.request.value.messageType, r.request.value.stream;
      }
      var responseType, responseStream := "", false;
      if r.response.Some? {
        responseType, responseStream := r.response.value.messageType, r.response.value.stream;
      }
      result := result[service + "." + r.name := ParsedRpc(requestType, responseType, requestStream, responseStream)];
    }
    assert rpcs[..|rpcs|] == rpcs;
  }

  method ExtractRpcs(services: seq<Service>) returns (result: map<string, ParsedRpc>)
    ensures result == RpcsByName(services)
  {
    result := map[];
    for i := 0 to |services|
      invariant result == Write(RpcEntries(services[..i]), map[])
    {
      var s := services[i];
      assert services[..i + 1][..i] == services[..i];
      if s.body.Some? {
        result := ExtractRpcsOfService(s.name, s.body.value, result);
        WriteConcat(RpcEntries(services[..i]), RpcEntriesIn(s.name, s.body.value), map[]);
      } else {
        assert RpcEntries(services[..i]) + [] == RpcEntries(services[..i]);
      }
    }
    assert services[..|services|] == services;
  }

  lemma WriteOne<V>(e: Entry<V>, onto: map<string, V>)
    ensures Write([e], onto) == onto[e.key := e.value]
  {
    assert [e][..0] == [];
  }

  function NumberedValue(enum: string, v: EnumValue): seq<Entry<string>> {
    match ParseProtoNumber(v.number)
    case None => []
    case Some(n) => [Entry(NumberKey(enum, n), v.ident)]
  }

  function ValueEntriesIn(enum: string, values: seq<EnumValue>): seq<Entry<string>> {
    if values == [] then []
    else ValueEntriesIn(enum, values[..|values| - 1]) + NumberedValue(enum, values[|values| - 1])
  }

  function EnumValueEntries(enums: seq<EnumDef>): seq<Entry<string>> {
    if enums == [] then []
    else
      var e := enums[|enums| - 1];
      EnumValueEntries(enums[..|enums| - 1]) + (if e.body.Some? then ValueEntriesIn(e.name, e.body.value) else [])
  }

  function EnumValuesByNumber(enums: seq<EnumDef>): map<string, string> {
    Write(EnumValueEntries(enums), map[])
  }

  method ExtractValuesOfEnum(enum: string, values: seq<EnumValue>, into: map<string, string>)
    returns (result: map<string, string>)
    ensures result == Write(ValueEntriesIn(enum, values), into)
  {
    result := into;
    for j := 0 to |values|
      invariant result == Write(ValueEntriesIn(enum, values[..j]), into)
    {
      var v := values[j];
      assert values[..j + 1][..j] == values[..j];
      WriteConcat(ValueEntriesIn(enum, values[..j]), NumberedValue(enum, v), into);
      var parsed := ParseProtoNumber(v.number);
      if parsed.Some? {
        WriteOne(Entry(NumberKey(enum, parsed.value), v.ident), result);
        result := result[NumberKey(enum, parsed.value) := v.ident];
      }
    }
    assert values[..|values|] == values;
  }

  method ExtractEnumValues(enums: seq<EnumDef>) returns (result: map<string, string>)
    ensures result == EnumValuesByNumber(enums)
  {
    result := map[];
    for i := 0 to |enums|
      invariant result == Write(EnumValueEntries(enums[..i]), map[])
    {
      var e := enums[i];
      assert enums[..i + 1][..i] == enums[..i];
      if e.body.Some? {
        result := ExtractValuesOfEnum(e.name, e.body.value, result);
        WriteConcat(EnumValueEntries(enums[..i]), ValueEntriesIn(e.name, e.body.value), map[]);
      } else {
        assert EnumValueEntries(enums[..i]) + [] == EnumValueEntries(enums[..i]);
      }
    }
    assert enums[..|enums|] == enums;
  }

  function RequiredAmong(fields: seq<Field>): nat {
    if fields == [] then 0
    else RequiredAmong(fields[..|fields| - 1]) + (if fields[|fields| - 1].required then 1 else 0)
  }

  function RequiredIn(messages: seq<Message>): nat {
    if messages == [] then 0
    else RequiredIn(messages[..|messages| - 1]) + RequiredOfMessage(messages[|messages| - 1])
  }

  function RequiredOfMessage(m: Message): nat {
    match m.body
    case None => 0
    case Some(b) => RequiredAmong(b.fields) + RequiredIn(b.messages)
  }

  method CountRequiredFields(messages: seq<Message>) returns (count: nat)
    ensures count == RequiredIn(messages)
  {
    count := 0;
    for i := 0 to |messages|
      invariant count == RequiredIn(messages[..i])
    {
      var m := messages[i];
      assert messages[..i + 1][..i] == messages[..i];
      if m.body.Some? {
        var fields := m.body.value.fields;
        ghost var before := count;
        for j := 0 to |fields|
          invariant count == before + RequiredAmong(fields[..j])
        {
          assert fields[..j + 1][..j] == fields[..j];
          if fields[j].required {
            count := count + 1;
          }
        }
        assert fields[..|fields|] == fields;
        var nested := CountRequiredFields(m.body.value.messages);
        count := count + nested;
      }
    }
    assert messages[..|messages|] == messages;
  }
}
