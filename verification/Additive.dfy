/**
 Additive edits.  A marked tree is a file in which every inserted element, at
 any position and at any depth, carries a mark: dropping the marked elements
 gives the file before the edit, keeping them gives the file after it.
 */
module Additive {
  import opened Base
  import opened Proto
  import opened Decimal
  import opened Extract
  import opened Severity

  datatype Marked<T> = Marked(added: bool, item: T)

  datatype MarkedOneof = MarkedOneof(added: bool, fields: seq<Marked<OneofField>>)

  datatype MarkedMessage = MarkedMessage(added: bool, name: string, body: Option<MarkedBody>)

  datatype MarkedBody = MarkedBody(
    fields: seq<Marked<Field>>, maps: seq<Marked<MapField>>, oneofs: seq<MarkedOneof>, messages: seq<MarkedMessage>)

  datatype MarkedService = MarkedService(added: bool, name: string, body: Option<seq<Marked<Rpc>>>)

  datatype MarkedEnum = MarkedEnum(added: bool, name: string, body: Option<seq<Marked<EnumValue>>>)

  datatype MarkedProto = MarkedProto(
    packages: seq<string>, messages: seq<MarkedMessage>, services: seq<MarkedService>, enums: seq<MarkedEnum>)

  // ---------------------------------------------------------------------------
  // Before and after

  /** The elements present at one side of the edit: all of them after it, the unmarked ones before it. */
  function Items<T>(xs: seq<Marked<T>>, after: bool): seq<T> {
    if xs == [] then []
    else
      var last := xs[|xs| - 1];
      Items(xs[..|xs| - 1], after) + (if after || !last.added then [last.item] else [])
  }

  function Oneofs(xs: seq<MarkedOneof>, after: bool): seq<Oneof> {
    if xs == [] then []
    else
      var last := xs[|xs| - 1];
      Oneofs(xs[..|xs| - 1], after) + (if after || !last.added then [Oneof(Items(last.fields, after))] else [])
  }

  function Messages(xs: seq<MarkedMessage>, after: bool): seq<Message> {
    if xs == [] then []
    else
      var last := xs[|xs| - 1];
      Messages(xs[..|xs| - 1], after) + (if after || !last.added then [OneMessage(last, after)] else [])
  }

  function OneMessage(m: MarkedMessage, after: bool): Message {
    Message(m.name, match m.body case None => None case Some(b) => Some(Body(b, after)))
  }

  function Body(b: MarkedBody, after: bool): MessageBody {
    MessageBody(Items(b.fields, after), Items(b.maps, after), Oneofs(b.oneofs, after), Messages(b.messages, after))
  }

  function Services(xs: seq<MarkedService>, after: bool): seq<Service> {
    if xs == [] then []
    else
      var last := xs[|xs| - 1];
      Services(xs[..|xs| - 1], after) +
      (if after || !last.added
       then [Service(last.name, if last.body.Some? then Some(Items(last.body.value, after)) else None)] else [])
  }

  function Enums(xs: seq<MarkedEnum>, after: bool): seq<EnumDef> {
    if xs == [] then []
    else
      var last := xs[|xs| - 1];
      Enums(xs[..|xs| - 1], after) +
      (if after || !last.added
       then [EnumDef(last.name, if last.body.Some? then Some(Items(last.body.value, after)) else None)] else [])
  }

  function BodyAt(p: MarkedProto, after: bool): ProtoBody {
    ProtoBody(p.packages, Messages(p.messages, after), Services(p.services, after), Enums(p.enums, after))
  }

  function FileAt(p: MarkedProto, after: bool): Option<ProtoFile> {
    Some(ProtoFile(Some(BodyAt(p, after))))
  }

  // ---------------------------------------------------------------------------
  // Freshness: an inserted number or RPC does not reuse a key of the old file

  predicate FreshKeys<V(==)>(entries: seq<Entry<V>>, used: set<string>) {
    forall e :: e in entries ==> e.key !in used
  }

  predicate FreshFields(path: string, xs: seq<Marked<Field>>, used: set<string>) {
    forall x :: x in xs && x.added ==>
      FreshKeys(Numbered(path, x.item.number, ParsedField(x.item.name, x.item.typ)), used)
  }

  predicate FreshMaps(path: string, xs: seq<Marked<MapField>>, used: set<string>) {
    forall x :: x in xs && x.added ==>
      FreshKeys(Numbered(path, x.item.number, ParsedField(x.item.name, MapType(x.item))), used)
  }

  predicate FreshOneofFields(path: string, xs: seq<Marked<OneofField>>, used: set<string>) {
    forall x :: x in xs && x.added ==>
      FreshKeys(Numbered(path, x.item.number, ParsedField(x.item.name, x.item.typ)), used)
  }

  predicate FreshOneofs(path: string, xs: seq<MarkedOneof>, used: set<string>) {
    forall x :: x in xs ==>
      if x.added then FreshKeys(OneofFieldEntries(path, Items(x.fields, true)), used)
      else FreshOneofFields(path, x.fields, used)
  }

  predicate FreshMessages(prefix: string, xs: seq<MarkedMessage>, used: set<string>)
    decreases xs
  {
    xs != [] ==>
      FreshMessages(prefix, xs[..|xs| - 1], used) && FreshMessage(prefix, xs[|xs| - 1], used)
  }

  predicate FreshMessage(prefix: string, m: MarkedMessage, used: set<string>)
    decreases m
  {
    if m.added then FreshKeys(EntriesOfMessage(OneMessage(m, true), prefix), used)
    else match m.body
         case None => true
         case Some(b) => FreshBody(Qualify(prefix, m.name), b, used)
  }

  predicate FreshBody(path: string, b: MarkedBody, used: set<string>)
    decreases b
  {
    && FreshFields(path, b.fields, used)
    && FreshMaps(path, b.maps, used)
    && FreshOneofs(path, b.oneofs, used)
    && FreshMessages(path, b.messages, used)
  }

  predicate FreshRpcs(service: string, xs: seq<Marked<Rpc>>, used: set<string>) {
    forall x :: x in xs && x.added ==> service + "." + x.item.name !in used
  }

  predicate FreshServices(xs: seq<MarkedService>, used: set<string>) {
    forall x :: x in xs && x.body.Some? ==>
      if x.added then FreshKeys(RpcEntriesIn(x.name, Items(x.body.value, true)), used)
      else FreshRpcs(x.name, x.body.value, used)
  }

  predicate Fresh(p: MarkedProto) {
    && FreshMessages("", p.messages, FieldsByNumber(Messages(p.messages, false)).Keys)
    && FreshServices(p.services, RpcsByName(Services(p.services, false)).Keys)
  }

  // ---------------------------------------------------------------------------
  // The number of required fields that the edit inserts

  function InsertedAmong(xs: seq<Marked<Field>>): nat {
    if xs == [] then 0
    else
      var last := xs[|xs| - 1];
      InsertedAmong(xs[..|xs| - 1]) + (if last.added && last.item.required then 1 else 0)
  }

  /** Required fields marked as inserted, plus all those inside inserted messages. */
  function InsertedRequired(xs: seq<MarkedMessage>): nat {
    if xs == [] then 0
    else
      InsertedRequired(xs[..|xs| - 1]) + InsertedRequiredBy(xs[|xs| - 1])
  }

  function InsertedRequiredBy(m: MarkedMessage): nat {
    if m.added then RequiredOfMessage(OneMessage(m, true))
    else match m.body
         case None => 0
         case Some(b) => InsertedAmong(b.fields) + InsertedRequired(b.messages)
  }

  lemma {:induction false} RequiredAmongGrows(xs: seq<Marked<Field>>)
    ensures RequiredAmong(Items(xs, true)) == RequiredAmong(Items(xs, false)) + InsertedAmong(xs)
  {
    if xs != [] {
      var init, last := xs[..|xs| - 1], xs[|xs| - 1];
      RequiredAmongGrows(init);
      RequiredAmongAppend(Items(init, true), last.item);
      RequiredAmongAppend(Items(init, false), last.item);
      assert Items(xs, true) == Items(init, true) + [last.item];
      assert Items(xs, false) == if last.added then Items(init, false) else Items(init, false) + [last.item];
    }
  }

  lemma RequiredAmongAppend(fields: seq<Field>, f: Field)
    ensures RequiredAmong(fields + [f]) == RequiredAmong(fields) + if f.required then 1 else 0
  {
    assert (fields + [f])[..|fields|] == fields;
  }

  lemma {:induction false} RequiredGrows(xs: seq<MarkedMessage>)
    ensures RequiredIn(Messages(xs, true)) == RequiredIn(Messages(xs, false)) + InsertedRequired(xs)
    decreases xs, 1
  {
    if xs != [] {
      var init, last := xs[..|xs| - 1], xs[|xs| - 1];
      RequiredGrows(init);
      var big, small := Messages(xs, true), Messages(xs, false);
      assert big[..|big| - 1] == Messages(init, true) && big[|big| - 1] == OneMessage(last, true);
      assert RequiredIn(big) == RequiredIn(Messages(init, true)) + RequiredOfMessage(OneMessage(last, true));
      if last.added {
        assert small == Messages(init, false);
      } else {
        assert small[..|small| - 1] == Messages(init, false) && small[|small| - 1] == OneMessage(last, false);
        RequiredOfMessageGrows(last);
      }
    }
  }

  lemma {:induction false} RequiredOfMessageGrows(m: MarkedMessage)
    requires !m.added
    ensures RequiredOfMessage(OneMessage(m, true)) == RequiredOfMessage(OneMessage(m, false)) + InsertedRequiredBy(m)
    decreases m, 0
  {
    if m.body.Some? {
      RequiredAmongGrows(m.body.value.fields);
      RequiredGrows(m.body.value.messages);
    }
  }

  // ---------------------------------------------------------------------------
  // The writes whose keys the old file uses

  function Within<V>(entries: seq<Entry<V>>, used: set<string>): seq<Entry<V>> {
    if entries == [] then []
    else
      var last := entries[|entries| - 1];
      Within(entries[..|entries| - 1], used) + (if last.key in used then [last] else [])
  }

  lemma {:induction false} WithinConcat<V>(a: seq<Entry<V>>, b: seq<Entry<V>>, used: set<string>)
    ensures Within(a + b, used) == Within(a, used) + Within(b, used)
  {
    if b == [] {
      assert a + b == a;
    } else {
      var c := b[..|b| - 1];
      assert (a + b)[..|a + b| - 1] == a + c;
      WithinConcat(a, c, used);
    }
  }

  lemma {:induction false} WithinNone<V>(entries: seq<Entry<V>>, used: set<string>)
    requires FreshKeys(entries, used)
    ensures Within(entries, used) == []
  {
    if entries != [] {
      assert entries[|entries| - 1] in entries;
      WithinNone(entries[..|entries| - 1], used);
    }
  }

  predicate UsedKeys<V(==)>(entries: seq<Entry<V>>, used: set<string>) {
    forall e :: e in entries ==> e.key in used
  }

  lemma {:induction false} WithinAll<V>(entries: seq<Entry<V>>, used: set<string>)
    requires UsedKeys(entries, used)
    ensures Within(entries, used) == entries
  {
    if entries != [] {
      assert entries[|entries| - 1] in entries;
      WithinAll(entries[..|entries| - 1], used);
    }
  }

  /** Writes outside a set of keys do not disturb the bindings inside it. */
  lemma {:induction false} WriteWithin<V>(entries: seq<Entry<V>>, used: set<string>, key: string)
    requires key in used
    ensures key in Write(entries, map[]) <==> key in Write(Within(entries, used), map[])
    ensures key in Write(entries, map[]) ==> Write(entries, map[])[key] == Write(Within(entries, used), map[])[key]
  {
    if entries != [] {
      var init, last := entries[..|entries| - 1], entries[|entries| - 1];
      WriteWithin(init, used, key);
      var kept := Within(entries, used);
      if last.key in used {
        assert kept[..|kept| - 1] == Within(init, used);
      } else {
        assert kept == Within(init, used);
      }
    }
  }

  // ---------------------------------------------------------------------------
  // Inside the used keys, the walk over the new file repeats the walk over the old one

  lemma {:induction false} FieldsWithin(path: string, xs: seq<Marked<Field>>, used: set<string>)
    requires FreshFields(path, xs, used)
    requires UsedKeys(RegularEntries(path, Items(xs, false)), used)
    ensures Within(RegularEntries(path, Items(xs, true)), used) == RegularEntries(path, Items(xs, false))
  {
    if xs != [] {
      var init, last := xs[..|xs| - 1], xs[|xs| - 1];
      var big, small := Items(xs, true), Items(xs, false);
      var writes := Numbered(path, last.item.number, ParsedField(last.item.name, last.item.typ));
      assert last in xs;
      assert big[..|big| - 1] == Items(init, true);
      WithinConcat(RegularEntries(path, Items(init, true)), writes, used);
      if last.added {
        assert small == Items(init, false);
        WithinNone(writes, used);
      } else {
        assert small[..|small| - 1] == Items(init, false);
        assert RegularEntries(path, small) == RegularEntries(path, Items(init, false)) + writes;
        WithinAll(writes, used);
      }
      FieldsWithin(path, init, used);
    }
  }

  lemma {:induction false} MapsWithin(path: string, xs: seq<Marked<MapField>>, used: set<string>)
    requires FreshMaps(path, xs, used)
    requires UsedKeys(MapEntries(path, Items(xs, false)), used)
    ensures Within(MapEntries(path, Items(xs, true)), used) == MapEntries(path, Items(xs, false))
  {
    if xs != [] {
      var init, last := xs[..|xs| - 1], xs[|xs| - 1];
      var big, small := Items(xs, true), Items(xs, false);
      var writes := Numbered(path, last.item.number, ParsedField(last.item.name, MapType(last.item)));
      assert last in xs;
      assert big[..|big| - 1] == Items(init, true);
      WithinConcat(MapEntries(path, Items(init, true)), writes, used);
      if last.added {
        assert small == Items(init, false);
        WithinNone(writes, used);
      } else {
        assert small[..|small| - 1] == Items(init, false);
        assert MapEntries(path, small) == MapEntries(path, Items(init, false)) + writes;
        WithinAll(writes, used);
      }
      MapsWithin(path, init, used);
    }
  }

  lemma {:induction false} OneofFieldsWithin(path: string, xs: seq<Marked<OneofField>>, used: set<string>)
    requires FreshOneofFields(path, xs, used)
    requires UsedKeys(OneofFieldEntries(path, Items(xs, false)), used)
    ensures Within(OneofFieldEntries(path, Items(xs, true)), used) == OneofFieldEntries(path, Items(xs, false))
  {
    if xs != [] {
      var init, last := xs[..|xs| - 1], xs[|xs| - 1];
      var big, small := Items(xs, true), Items(xs, false);
      var writes := Numbered(path, last.item.number, ParsedField(last.item.name, last.item.typ));
      assert last in xs;
      assert big[..|big| - 1] == Items(init, true);
      WithinConcat(OneofFieldEntries(path, Items(init, true)), writes, used);
      if last.added {
        assert small == Items(init, false);
        WithinNone(writes, used);
      } else {
        assert small[..|small| - 1] == Items(init, false);
        assert OneofFieldEntries(path, small) == OneofFieldEntries(path, Items(init, false)) + writes;
        WithinAll(writes, used);
      }
      OneofFieldsWithin(path, init, used);
    }
  }

  lemma {:induction false} OneofsWithin(path: string, xs: seq<MarkedOneof>, used: set<string>)
    requires FreshOneofs(path, xs, used)
    requires UsedKeys(OneofEntries(path, Oneofs(xs, false)), used)
    ensures Within(OneofEntries(path, Oneofs(xs, true)), used) == OneofEntries(path, Oneofs(xs, false))
  {
    if xs != [] {
      var init, last := xs[..|xs| - 1], xs[|xs| - 1];
      var big, small := Oneofs(xs, true), Oneofs(xs, false);
      assert last in xs;
      assert big[..|big| - 1] == Oneofs(init, true);
      WithinConcat(OneofEntries(path, Oneofs(init, true)), OneofFieldEntries(path, Items(last.fields, true)), used);
      if last.added {
        assert small == Oneofs(init, false);
        WithinNone(OneofFieldEntries(path, Items(last.fields, true)), used);
      } else {
        assert small[..|small| - 1] == Oneofs(init, false);
        assert OneofEntries(path, small) ==
               OneofEntries(path, Oneofs(init, false)) + OneofFieldEntries(path, Items(last.fields, false));
        OneofFieldsWithin(path, last.fields, used);
      }
      OneofsWithin(path, init, used);
    }
  }

  lemma {:induction false} BodyWithin(path: string, b: MarkedBody, used: set<string>)
    requires FreshBody(path, b, used)
    requires UsedKeys(OwnEntries(path, Body(b, false)), used)
    ensures Within(OwnEntries(path, Body(b, true)), used) == OwnEntries(path, Body(b, false))
  {
    var before, after := Body(b, false), Body(b, true);
    FieldsWithin(path, b.fields, used);
    MapsWithin(path, b.maps, used);
    OneofsWithin(path, b.oneofs, used);
    WithinConcat(RegularEntries(path, after.fields), MapEntries(path, after.maps), used);
    WithinConcat(RegularEntries(path, after.fields) + MapEntries(path, after.maps), OneofEntries(path, after.oneofs), used);
  }

  lemma {:induction false} MessagesWithin(prefix: string, xs: seq<MarkedMessage>, used: set<string>)
    requires FreshMessages(prefix, xs, used)
    requires UsedKeys(FieldEntries(Messages(xs, false), prefix), used)
    ensures Within(FieldEntries(Messages(xs, true), prefix), used) == FieldEntries(Messages(xs, false), prefix)
    decreases xs, 1
  {
    if xs != [] {
      var init, last := xs[..|xs| - 1], xs[|xs| - 1];
      var big, small := Messages(xs, true), Messages(xs, false);
      assert big[..|big| - 1] == Messages(init, true) && big[|big| - 1] == OneMessage(last, true);
      WithinConcat(FieldEntries(Messages(init, true), prefix), EntriesOfMessage(OneMessage(last, true), prefix), used);
      if last.added {
        assert small == Messages(init, false);
        WithinNone(EntriesOfMessage(OneMessage(last, true), prefix), used);
      } else {
        assert small[..|small| - 1] == Messages(init, false) && small[|small| - 1] == OneMessage(last, false);
        assert FieldEntries(small, prefix) ==
               FieldEntries(Messages(init, false), prefix) + EntriesOfMessage(OneMessage(last, false), prefix);
        MessageWithin(prefix, last, used);
      }
      MessagesWithin(prefix, init, used);
    }
  }

  lemma {:induction false} MessageWithin(prefix: string, m: MarkedMessage, used: set<string>)
    requires !m.added && FreshMessage(prefix, m, used)
    requires UsedKeys(EntriesOfMessage(OneMessage(m, false), prefix), used)
    ensures Within(EntriesOfMessage(OneMessage(m, true), prefix), used) == EntriesOfMessage(OneMessage(m, false), prefix)
    decreases m, 0
  {
    if m.body.Some? {
      var path, b := Qualify(prefix, m.name), m.body.value;
      var own, nested := OwnEntries(path, Body(b, false)), FieldEntries(Messages(b.messages, false), path);
      assert EntriesOfMessage(OneMessage(m, false), prefix) == own + nested;
      assert UsedKeys(own, used) && UsedKeys(nested, used);
      BodyWithin(path, b, used);
      MessagesWithin(path, b.messages, used);
      WithinConcat(OwnEntries(path, Body(b, true)), FieldEntries(Messages(b.messages, true), path), used);
    }
  }

  lemma {:induction false} RpcsWithin(service: string, xs: seq<Marked<Rpc>>, used: set<string>)
    requires FreshRpcs(service, xs, used)
    requires UsedKeys(RpcEntriesIn(service, Items(xs, false)), used)
    ensures Within(RpcEntriesIn(service, Items(xs, true)), used) == RpcEntriesIn(service, Items(xs, false))
  {
    if xs != [] {
      var init, last := xs[..|xs| - 1], xs[|xs| - 1];
      var big, small := Items(xs, true), Items(xs, false);
      var writes := [Entry(service + "." + last.item.name, RpcDetails(last.item))];
      assert last in xs;
      assert big[..|big| - 1] == Items(init, true);
      WithinConcat(RpcEntriesIn(service, Items(init, true)), writes, used);
      if last.added {
        assert small == Items(init, false);
        WithinNone(writes, used);
      } else {
        assert small[..|small| - 1] == Items(init, false);
        assert RpcEntriesIn(service, small) == RpcEntriesIn(service, Items(init, false)) + writes;
        WithinAll(writes, used);
      }
      RpcsWithin(service, init, used);
    }
  }

  function RpcsOf(s: Service): seq<Entry<ParsedRpc>> {
    if s.body.Some? then RpcEntriesIn(s.name, s.body.value) else []
  }

  lemma {:induction false} ServicesWithin(xs: seq<MarkedService>, used: set<string>)
    requires FreshServices(xs, used)
    requires UsedKeys(RpcEntries(Services(xs, false)), used)
    ensures Within(RpcEntries(Services(xs, true)), used) == RpcEntries(Services(xs, false))
  {
    if xs != [] {
      var init, last := xs[..|xs| - 1], xs[|xs| - 1];
      var big, small := Services(xs, true), Services(xs, false);
      assert last in xs;
      assert big[..|big| - 1] == Services(init, true);
      WithinConcat(RpcEntries(Services(init, true)), RpcsOf(big[|big| - 1]), used);
      if last.added {
        assert small == Services(init, false);
        WithinNone(RpcsOf(big[|big| - 1]), used);
      } else {
        assert small[..|small| - 1] == Services(init, false);
        assert RpcEntries(small) == RpcEntries(Services(init, false)) + RpcsOf(small[|small| - 1]);
        if last.body.Some? {
          RpcsWithin(last.name, last.body.value, used);
        }
      }
      ServicesWithin(init, used);
    }
  }

  // ---------------------------------------------------------------------------
  // Names only grow

  lemma {:induction false} PathsGrow(xs: seq<MarkedMessage>)
    ensures MessagePaths(Messages(xs, false)) <= MessagePaths(Messages(xs, true))
    decreases xs
  {
    if xs != [] {
      var init, last := xs[..|xs| - 1], xs[|xs| - 1];
      PathsGrow(init);
      var big, small := Messages(xs, true), Messages(xs, false);
      assert big[..|big| - 1] == Messages(init, true) && big[|big| - 1] == OneMessage(last, true);
      if last.added {
        assert small == Messages(init, false);
      } else {
        assert small[..|small| - 1] == Messages(init, false) && small[|small| - 1] == OneMessage(last, false);
        if last.body.Some? {
          PathsGrow(last.body.value.messages);
        }
        assert PathsOfMessage(OneMessage(last, false)) <= PathsOfMessage(OneMessage(last, true));
      }
    }
  }

  lemma {:induction false} ServiceNamesGrow(xs: seq<MarkedService>)
    ensures ServiceNames(Services(xs, false)) <= ServiceNames(Services(xs, true))
  {
    if xs != [] {
      var init, last := xs[..|xs| - 1], xs[|xs| - 1];
      ServiceNamesGrow(init);
      var big := Services(xs, true);
      assert ServiceNames(big) == ServiceNames(Services(init, true)) + {last.name} by {
        assert big == Services(init, true) + [big[|big| - 1]];
      }
    }
  }

  lemma {:induction false} EnumNamesGrow(xs: seq<MarkedEnum>)
    ensures EnumNames(Enums(xs, false)) <= EnumNames(Enums(xs, true))
  {
    if xs != [] {
      var init, last := xs[..|xs| - 1], xs[|xs| - 1];
      EnumNamesGrow(init);
      var big := Enums(xs, true);
      assert EnumNames(big) == EnumNames(Enums(init, true)) + {last.name} by {
        assert big == Enums(init, true) + [big[|big| - 1]];
      }
    }
  }

  lemma {:induction false} ValuesGrow(enum: string, xs: seq<Marked<EnumValue>>, e: Entry<string>)
    requires e in ValueEntriesIn(enum, Items(xs, false))
    ensures e in ValueEntriesIn(enum, Items(xs, true))
  {
    if xs != [] {
      var init, last := xs[..|xs| - 1], xs[|xs| - 1];
      var big, small := Items(xs, true), Items(xs, false);
      assert big[..|big| - 1] == Items(init, true);
      if last.added {
        assert small == Items(init, false);
      } else {
        assert small[..|small| - 1] == Items(init, false);
      }
      if e in ValueEntriesIn(enum, Items(init, false)) {
        ValuesGrow(enum, init, e);
      }
    }
  }

  lemma {:induction false} EnumValuesGrow(xs: seq<MarkedEnum>, e: Entry<string>)
    requires e in EnumValueEntries(Enums(xs, false))
    ensures e in EnumValueEntries(Enums(xs, true))
  {
    if xs != [] {
      var init, last := xs[..|xs| - 1], xs[|xs| - 1];
      var big, small := Enums(xs, true), Enums(xs, false);
      assert big[..|big| - 1] == Enums(init, true);
      if last.added {
        assert small == Enums(init, false);
      } else {
        assert small[..|small| - 1] == Enums(init, false);
      }
      if e in EnumValueEntries(Enums(init, false)) {
        EnumValuesGrow(init, e);
      } else if last.body.Some? {
        ValuesGrow(last.name, last.body.value, e);
      }
    }
  }

  // ---------------------------------------------------------------------------
  // The theorem

  lemma FieldsKept(xs: seq<MarkedMessage>)
    requires FreshMessages("", xs, FieldsByNumber(Messages(xs, false)).Keys)
    ensures forall k :: k in FieldsByNumber(Messages(xs, false)) ==>
              k in FieldsByNumber(Messages(xs, true)) &&
              FieldsByNumber(Messages(xs, true))[k] == FieldsByNumber(Messages(xs, false))[k]
  {
    var small, big := FieldEntries(Messages(xs, false), ""), FieldEntries(Messages(xs, true), "");
    var used := FieldsByNumber(Messages(xs, false)).Keys;
    WriteKeys(small, map[]);
    assert UsedKeys(small, used);
    MessagesWithin("", xs, used);
    forall k | k in used
      ensures k in Write(big, map[]) && Write(big, map[])[k] == Write(small, map[])[k]
    {
      WriteWithin(big, used, k);
    }
  }

  lemma RpcsKept(xs: seq<MarkedService>)
    requires FreshServices(xs, RpcsByName(Services(xs, false)).Keys)
    ensures forall k :: k in RpcsByName(Services(xs, false)) ==>
              k in RpcsByName(Services(xs, true)) &&
              RpcsByName(Services(xs, true))[k] == RpcsByName(Services(xs, false))[k]
  {
    var small, big := RpcEntries(Services(xs, false)), RpcEntries(Services(xs, true));
    var used := RpcsByName(Services(xs, false)).Keys;
    WriteKeys(small, map[]);
    assert UsedKeys(small, used);
    ServicesWithin(xs, used);
    forall k | k in used
      ensures k in Write(big, map[]) && Write(big, map[])[k] == Write(small, map[])[k]
    {
      WriteWithin(big, used, k);
    }
  }

  lemma EnumNumbersKept(xs: seq<MarkedEnum>)
    ensures EnumValuesByNumber(Enums(xs, false)).Keys <= EnumValuesByNumber(Enums(xs, true)).Keys
  {
    var small, big := EnumValueEntries(Enums(xs, false)), EnumValueEntries(Enums(xs, true));
    WriteKeys(small, map[]);
    WriteKeys(big, map[]);
    forall e | e in small
      ensures e in big
    {
      EnumValuesGrow(xs, e);
    }
  }

  lemma ContractGrows(p: MarkedProto)
    requires Fresh(p)
    ensures Honours(ContractOf(BodyAt(p, false)), ContractOf(BodyAt(p, true)))
    ensures !Renames(ContractOf(BodyAt(p, false)), ContractOf(BodyAt(p, true)))
  {
    PathsGrow(p.messages);
    ServiceNamesGrow(p.services);
    EnumNamesGrow(p.enums);
    FieldsKept(p.messages);
    RpcsKept(p.services);
    EnumNumbersKept(p.enums);
  }

  /** An edit that only inserts is never breaking; it is a warning exactly when it inserts a required field. */
  lemma AdditiveEditsNeverBreak(p: MarkedProto)
    requires Fresh(p)
    ensures SeverityOf(FileAt(p, false), FileAt(p, true)) == if InsertedRequired(p.messages) > 0 then Warning else Info
  {
    ContractGrows(p);
    RequiredGrows(p.messages);
  }
}
