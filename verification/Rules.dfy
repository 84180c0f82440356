/**
 The severity rules read off the declarations of two files, with no contract map
 in between.  A file is read as outlines: its numbered fields and its RPCs, one
 after the other; where a number or a name is declared twice, the later
 declaration counts.
 */
module Rules {
  import opened Base
  import opened Proto
  import opened Decimal
  import opened Extract
  import opened Walks
  import opened Severity

  // ---------------------------------------------------------------------------
  // Fields in reading order

  /** A numbered declaration, under the names of the messages around it. */
  datatype Decl = Decl(names: seq<string>, number: string, name: string, typ: string, required: bool)

  function RegularDecls(fields: seq<Field>, names: seq<string>): seq<Decl> {
    if fields == [] then []
    else
      var f := fields[|fields| - 1];
      RegularDecls(fields[..|fields| - 1], names) + [Decl(names, f.number, f.name, f.typ, f.required)]
  }

  function MapDecls(maps: seq<MapField>, names: seq<string>): seq<Decl> {
    if maps == [] then []
    else
      var f := maps[|maps| - 1];
      MapDecls(maps[..|maps| - 1], names) + [Decl(names, f.number, f.name, "map<" + f.keyType + "," + f.typ + ">", false)]
  }

  function MemberDecls(fields: seq<OneofField>, names: seq<string>): seq<Decl> {
    if fields == [] then []
    else
      var f := fields[|fields| - 1];
      MemberDecls(fields[..|fields| - 1], names) + [Decl(names, f.number, f.name, f.typ, false)]
  }

  function OneofDecls(oneofs: seq<Oneof>, names: seq<string>): seq<Decl> {
    if oneofs == [] then []
    else OneofDecls(oneofs[..|oneofs| - 1], names) + MemberDecls(oneofs[|oneofs| - 1].fields, names)
  }

  /** The declarations of a message tree: a message's own, then those of the messages inside it. */
  function Outline(messages: seq<Message>, above: seq<string>): seq<Decl> {
    if messages == [] then []
    else Outline(messages[..|messages| - 1], above) + OutlineOfMessage(messages[|messages| - 1], above)
  }

  function OutlineOfMessage(m: Message, above: seq<string>): seq<Decl> {
    match m.body
    case None => []
    case Some(b) =>
      var names := above + [m.name];
      RegularDecls(b.fields, names) + MapDecls(b.maps, names) + OneofDecls(b.oneofs, names) + Outline(b.messages, names)
  }

  /** The title of a message: its names joined by dots, where empty names at the top leave no trace. */
  function Title(names: seq<string>): string {
    if names == [] then ""
    else
      var above, last := Title(names[..|names| - 1]), names[|names| - 1];
      if above == "" then last else above + "." + last
  }

  /** With a named top-level message, the title is the dotted path. */
  lemma {:induction false} TitleIsDotted(names: seq<string>)
    requires names != [] && names[0] != ""
    ensures Title(names) == Dotted(names) && Title(names) != ""
  {
    var init, last := names[..|names| - 1], names[|names| - 1];
    if init == [] {
      assert Title(init) == "";
    } else {
      TitleIsDotted(init);
      DottedSnoc(init, last);
      assert names == init + [last];
    }
  }

  lemma {:induction false} DottedSnoc(names: seq<string>, last: string)
    requires names != []
    ensures Dotted(names + [last]) == Dotted(names) + "." + last
  {
    assert (names + [last])[1..] == names[1..] + [last];
    if |names| > 1 {
      DottedSnoc(names[1..], last);
      assert names[0] + "." + (Dotted(names[1..]) + "." + last) == names[0] + "." + Dotted(names[1..]) + "." + last;
    }
  }

  /** The declaration is that of number n of the message with this title. */
  predicate Is(d: Decl, title: string, n: int) { Title(d.names) == title && ParseProtoNumber(d.number) == Some(n) }

  /** The declaration at i is the one that counts for the number: no later one has it. */
  predicate Counts(ds: seq<Decl>, i: nat, title: string, n: int) {
    i < |ds| && Is(ds[i], title, n) && forall j :: i < j < |ds| ==> !Is(ds[j], title, n)
  }

  /** The number n of the message with this title is a field of this name and type. */
  ghost predicate Declared(messages: seq<Message>, title: string, n: int, name: string, typ: string) {
    exists i: nat :: Counts(Outline(messages, []), i, title, n) &&
      Outline(messages, [])[i].name == name && Outline(messages, [])[i].typ == typ
  }

  // The map that the code builds binds exactly these

  function EntriesOf(ds: seq<Decl>): seq<Entry<ParsedField>> {
    if ds == [] then []
    else
      var d := ds[|ds| - 1];
      EntriesOf(ds[..|ds| - 1]) + Numbered(Title(d.names), d.number, ParsedField(d.name, d.typ))
  }

  lemma {:induction false} EntriesOfConcat(a: seq<Decl>, b: seq<Decl>)
    ensures EntriesOf(a + b) == EntriesOf(a) + EntriesOf(b)
  {
    if b == [] {
      assert a + b == a;
    } else {
      var init, d := b[..|b| - 1], b[|b| - 1];
      EntriesOfConcat(a, init);
      Snoc(a, b);
      EntriesOfOne(a + init, d);
      EntriesOfOne(init, d);
      Associative(EntriesOf(a), EntriesOf(init), Numbered(Title(d.names), d.number, ParsedField(d.name, d.typ)));
    }
  }

  lemma Snoc<T>(a: seq<T>, b: seq<T>)
    requires b != []
    ensures b == b[..|b| - 1] + [b[|b| - 1]] && a + b == (a + b[..|b| - 1]) + [b[|b| - 1]]
  {
  }

  lemma Associative<T>(a: seq<T>, b: seq<T>, c: seq<T>)
    ensures (a + b) + c == a + (b + c)
  {
  }

  lemma EntriesOfOne(ds: seq<Decl>, d: Decl)
    ensures EntriesOf(ds + [d]) == EntriesOf(ds) + Numbered(Title(d.names), d.number, ParsedField(d.name, d.typ))
  {
    assert (ds + [d])[..|ds|] == ds;
  }

  lemma {:induction false} RegularAreOutlined(fields: seq<Field>, names: seq<string>)
    ensures RegularEntries(Title(names), fields) == EntriesOf(RegularDecls(fields, names))
  {
    if fields != [] {
      var init, f := fields[..|fields| - 1], fields[|fields| - 1];
      RegularAreOutlined(init, names);
      EntriesOfOne(RegularDecls(init, names), Decl(names, f.number, f.name, f.typ, f.required));
    }
  }

  lemma {:induction false} MapsAreOutlined(maps: seq<MapField>, names: seq<string>)
    ensures MapEntries(Title(names), maps) == EntriesOf(MapDecls(maps, names))
  {
    if maps != [] {
      var init, f := maps[..|maps| - 1], maps[|maps| - 1];
      MapsAreOutlined(init, names);
      EntriesOfOne(MapDecls(init, names), Decl(names, f.number, f.name, "map<" + f.keyType + "," + f.typ + ">", false));
    }
  }

  lemma {:induction false} MembersAreOutlined(fields: seq<OneofField>, names: seq<string>)
    ensures OneofFieldEntries(Title(names), fields) == EntriesOf(MemberDecls(fields, names))
  {
    if fields != [] {
      var init, f := fields[..|fields| - 1], fields[|fields| - 1];
      MembersAreOutlined(init, names);
      EntriesOfOne(MemberDecls(init, names), Decl(names, f.number, f.name, f.typ, false));
    }
  }

  lemma {:induction false} OneofsAreOutlined(oneofs: seq<Oneof>, names: seq<string>)
    ensures OneofEntries(Title(names), oneofs) == EntriesOf(OneofDecls(oneofs, names))
  {
    if oneofs != [] {
      var init, last := oneofs[..|oneofs| - 1], oneofs[|oneofs| - 1];
      OneofsAreOutlined(init, names);
      MembersAreOutlined(last.fields, names);
      EntriesOfConcat(OneofDecls(init, names), MemberDecls(last.fields, names));
    }
  }

  lemma BodyIsOutlined(b: MessageBody, names: seq<string>)
    ensures OwnEntries(Title(names), b) ==
            EntriesOf(RegularDecls(b.fields, names) + MapDecls(b.maps, names) + OneofDecls(b.oneofs, names))
  {
    var fields, maps, oneofs := RegularDecls(b.fields, names), MapDecls(b.maps, names), OneofDecls(b.oneofs, names);
    RegularAreOutlined(b.fields, names);
    MapsAreOutlined(b.maps, names);
    OneofsAreOutlined(b.oneofs, names);
    EntriesOfConcat(fields, maps);
    EntriesOfConcat(fields + maps, oneofs);
  }

  lemma {:induction false} FieldsAreOutlined(messages: seq<Message>, above: seq<string>)
    ensures FieldEntries(messages, Title(above)) == EntriesOf(Outline(messages, above))
    decreases messages, 1
  {
    if messages != [] {
      var init, last := messages[..|messages| - 1], messages[|messages| - 1];
      FieldsAreOutlined(init, above);
      MessageIsOutlined(last, above);
      EntriesOfConcat(Outline(init, above), OutlineOfMessage(last, above));
    }
  }

  lemma {:induction false} MessageIsOutlined(m: Message, above: seq<string>)
    ensures EntriesOfMessage(m, Title(above)) == EntriesOf(OutlineOfMessage(m, above))
    decreases m, 0
  {
    if m.body.Some? {
      var b, names := m.body.value, above + [m.name];
      assert names[..|above|] == above;
      assert Title(names) == Qualify(Title(above), m.name);
      BodyIsOutlined(b, names);
      FieldsAreOutlined(b.messages, names);
      EntriesOfConcat(RegularDecls(b.fields, names) + MapDecls(b.maps, names) + OneofDecls(b.oneofs, names),
                      Outline(b.messages, names));
    }
  }

  ghost predicate DeclaredIn(ds: seq<Decl>, title: string, n: int, field: ParsedField) {
    exists i: nat :: Counts(ds, i, title, n) && field == ParsedField(ds[i].name, ds[i].typ)
  }

  /** The written map binds the title and number to the declaration that counts. */
  lemma {:induction false} BoundIsCounting(ds: seq<Decl>, title: string, n: int, field: ParsedField)
    ensures var bound := Write(EntriesOf(ds), map[]);
            NumberKey(title, n) in bound && bound[NumberKey(title, n)] == field <==> DeclaredIn(ds, title, n, field)
  {
    if ds != [] {
      var init, d := ds[..|ds| - 1], ds[|ds| - 1];
      BoundIsCounting(init, title, n, field);
      var here := Numbered(Title(d.names), d.number, ParsedField(d.name, d.typ));
      WriteConcat(EntriesOf(init), here, map[]);
      if ParseProtoNumber(d.number).Some? {
        WriteOne(here[0], Write(EntriesOf(init), map[]));
        NumberKeyInjective(Title(d.names), ParseProtoNumber(d.number).value, title, n);
      }
      CountsNext(ds, title, n, field);
    }
  }

  lemma CountsNext(ds: seq<Decl>, title: string, n: int, field: ParsedField)
    requires ds != []
    ensures var init, d := ds[..|ds| - 1], ds[|ds| - 1];
            DeclaredIn(ds, title, n, field) <==>
            if Is(d, title, n) then field == ParsedField(d.name, d.typ) else DeclaredIn(init, title, n, field)
  {
    var init, d := ds[..|ds| - 1], ds[|ds| - 1];
    if Is(d, title, n) {
      assert Counts(ds, |ds| - 1, title, n);
    } else {
      assert forall i: nat :: Counts(ds, i, title, n) <==> Counts(init, i, title, n);
      if DeclaredIn(init, title, n, field) {
        var i: nat :| Counts(init, i, title, n) && field == ParsedField(init[i].name, init[i].typ);
        assert Counts(ds, i, title, n) && ds[i] == init[i];
      }
      if DeclaredIn(ds, title, n, field) {
        var i: nat :| Counts(ds, i, title, n) && field == ParsedField(ds[i].name, ds[i].typ);
        assert Counts(init, i, title, n) && ds[i] == init[i];
      }
    }
  }

  /** Every key of the map is a title and a number. */
  lemma {:induction false} KeyIsTitled(ds: seq<Decl>, key: string) returns (title: string, n: int)
    requires key in Write(EntriesOf(ds), map[])
    ensures key == NumberKey(title, n)
  {
    var init, d := ds[..|ds| - 1], ds[|ds| - 1];
    var here := Numbered(Title(d.names), d.number, ParsedField(d.name, d.typ));
    WriteConcat(EntriesOf(init), here, map[]);
    if here != [] && key == here[0].key {
      title, n := Title(d.names), ParseProtoNumber(d.number).value;
    } else {
      if here != [] {
        WriteOne(here[0], Write(EntriesOf(init), map[]));
      }
      title, n := KeyIsTitled(init, key);
    }
  }

  /** The field table holds exactly the declarations that count. */
  lemma FieldTable(messages: seq<Message>, title: string, n: int, name: string, typ: string)
    ensures NumberKey(title, n) in FieldsByNumber(messages) &&
            FieldsByNumber(messages)[NumberKey(title, n)] == ParsedField(name, typ)
       <==> Declared(messages, title, n, name, typ)
  {
    assert Title([]) == "";
    FieldsAreOutlined(messages, []);
    BoundIsCounting(Outline(messages, []), title, n, ParsedField(name, typ));
  }

  // ---------------------------------------------------------------------------
  // Required fields

  function RequiredDecls(ds: seq<Decl>): nat {
    if ds == [] then 0 else RequiredDecls(ds[..|ds| - 1]) + (if ds[|ds| - 1].required then 1 else 0)
  }

  lemma {:induction false} RequiredConcat(a: seq<Decl>, b: seq<Decl>)
    ensures RequiredDecls(a + b) == RequiredDecls(a) + RequiredDecls(b)
  {
    if b == [] {
      assert a + b == a;
    } else {
      RequiredConcat(a, b[..|b| - 1]);
      assert (a + b)[..|a + b| - 1] == a + b[..|b| - 1];
    }
  }

  lemma {:induction false} RegularRequired(fields: seq<Field>, names: seq<string>)
    ensures RequiredAmong(fields) == RequiredDecls(RegularDecls(fields, names))
  {
    if fields != [] {
      var init, f := fields[..|fields| - 1], fields[|fields| - 1];
      RegularRequired(init, names);
      RequiredConcat(RegularDecls(init, names), [Decl(names, f.number, f.name, f.typ, f.required)]);
      RequiredOne(Decl(names, f.number, f.name, f.typ, f.required));
    }
  }

  lemma RequiredOne(d: Decl)
    ensures RequiredDecls([d]) == if d.required then 1 else 0
  {
    assert [d][..0] == [];
  }

  predicate NoneRequired(ds: seq<Decl>) { forall i :: 0 <= i < |ds| ==> !ds[i].required }

  lemma {:induction false} NoneCounts(ds: seq<Decl>)
    requires NoneRequired(ds)
    ensures RequiredDecls(ds) == 0
  {
    if ds != [] {
      NoneCounts(ds[..|ds| - 1]);
    }
  }

  lemma {:induction false} OthersNotRequired(b: MessageBody, names: seq<string>)
    ensures NoneRequired(MapDecls(b.maps, names)) && NoneRequired(OneofDecls(b.oneofs, names))
  {
    MapsNotRequired(b.maps, names);
    OneofsNotRequired(b.oneofs, names);
  }

  lemma {:induction false} MapsNotRequired(maps: seq<MapField>, names: seq<string>)
    ensures NoneRequired(MapDecls(maps, names))
  {
    if maps != [] {
      MapsNotRequired(maps[..|maps| - 1], names);
    }
  }

  lemma {:induction false} MembersNotRequired(fields: seq<OneofField>, names: seq<string>)
    ensures NoneRequired(MemberDecls(fields, names))
  {
    if fields != [] {
      MembersNotRequired(fields[..|fields| - 1], names);
    }
  }

  lemma {:induction false} OneofsNotRequired(oneofs: seq<Oneof>, names: seq<string>)
    ensures NoneRequired(OneofDecls(oneofs, names))
  {
    if oneofs != [] {
      OneofsNotRequired(oneofs[..|oneofs| - 1], names);
      MembersNotRequired(oneofs[|oneofs| - 1].fields, names);
    }
  }

  /** The count over the nested loops is the number of required declarations. */
  lemma {:induction false} RequiredIsCounted(messages: seq<Message>, above: seq<string>)
    ensures RequiredIn(messages) == RequiredDecls(Outline(messages, above))
    decreases messages, 1
  {
    if messages != [] {
      var init, last := messages[..|messages| - 1], messages[|messages| - 1];
      RequiredIsCounted(init, above);
      RequiredOfMessageIsCounted(last, above);
      RequiredConcat(Outline(init, above), OutlineOfMessage(last, above));
    }
  }

  lemma {:induction false} RequiredOfMessageIsCounted(m: Message, above: seq<string>)
    ensures RequiredOfMessage(m) == RequiredDecls(OutlineOfMessage(m, above))
    decreases m, 0
  {
    if m.body.Some? {
      var b, names := m.body.value, above + [m.name];
      var fields, maps, oneofs := RegularDecls(b.fields, names), MapDecls(b.maps, names), OneofDecls(b.oneofs, names);
      RegularRequired(b.fields, names);
      OthersNotRequired(b, names);
      NoneCounts(maps);
      NoneCounts(oneofs);
      RequiredConcat(fields, maps);
      RequiredConcat(fields + maps, oneofs);
      RequiredIsCounted(b.messages, names);
      RequiredConcat(fields + maps + oneofs, Outline(b.messages, names));
    }
  }

  // ---------------------------------------------------------------------------
  // RPCs in reading order

  datatype Call = Call(service: string, rpc: Rpc)

  function CallsOf(service: string, rpcs: seq<Rpc>): seq<Call> {
    if rpcs == [] then [] else CallsOf(service, rpcs[..|rpcs| - 1]) + [Call(service, rpcs[|rpcs| - 1])]
  }

  function Calls(services: seq<Service>): seq<Call> {
    if services == [] then []
    else
      var s := services[|services| - 1];
      Calls(services[..|services| - 1]) + (if s.body.Some? then CallsOf(s.name, s.body.value) else [])
  }

  predicate IsCalled(c: Call, title: string) { c.service + "." + c.rpc.name == title }

  predicate CountsCall(cs: seq<Call>, i: nat, title: string) {
    i < |cs| && IsCalled(cs[i], title) && forall j :: i < j < |cs| ==> !IsCalled(cs[j], title)
  }

  /** The RPC that the title stands for. */
  ghost predicate Offers(services: seq<Service>, title: string, r: Rpc) {
    exists i: nat :: CountsCall(Calls(services), i, title) && Calls(services)[i].rpc == r
  }

  /** The same message types in and out and the same streaming; an endpoint that is not given has no type and no stream. */
  predicate SameEndpoint(e: Option<Endpoint>, e': Option<Endpoint>) {
    match (e, e')
    case (None, None) => true
    case (None, Some(x)) => x.messageType == "" && !x.stream
    case (Some(x), None) => x.messageType == "" && !x.stream
    case (Some(x), Some(y)) => x.messageType == y.messageType && x.stream == y.stream
  }

  predicate SameSignature(r: Rpc, r': Rpc) { SameEndpoint(r.request, r'.request) && SameEndpoint(r.response, r'.response) }

  lemma SignatureIsDetails(r: Rpc, r': Rpc)
    ensures SameSignature(r, r') <==> RpcDetails(r) == RpcDetails(r')
  {
  }

  function CallEntries(cs: seq<Call>): seq<Entry<ParsedRpc>> {
    if cs == [] then []
    else
      var c := cs[|cs| - 1];
      CallEntries(cs[..|cs| - 1]) + [Entry(c.service + "." + c.rpc.name, RpcDetails(c.rpc))]
  }

  lemma {:induction false} CallEntriesConcat(a: seq<Call>, b: seq<Call>)
    ensures CallEntries(a + b) == CallEntries(a) + CallEntries(b)
  {
    if b == [] {
      assert a + b == a;
    } else {
      CallEntriesConcat(a, b[..|b| - 1]);
      assert (a + b)[..|a + b| - 1] == a + b[..|b| - 1];
    }
  }

  lemma {:induction false} ServiceIsCalls(service: string, rpcs: seq<Rpc>)
    ensures RpcEntriesIn(service, rpcs) == CallEntries(CallsOf(service, rpcs))
  {
    if rpcs != [] {
      var init := rpcs[..|rpcs| - 1];
      ServiceIsCalls(service, init);
      var cs := CallsOf(service, rpcs);
      assert cs[..|cs| - 1] == CallsOf(service, init);
    }
  }

  lemma {:induction false} ServicesAreCalls(services: seq<Service>)
    ensures RpcEntries(services) == CallEntries(Calls(services))
  {
    if services != [] {
      var init, s := services[..|services| - 1], services[|services| - 1];
      ServicesAreCalls(init);
      if s.body.Some? {
        ServiceIsCalls(s.name, s.body.value);
        CallEntriesConcat(Calls(init), CallsOf(s.name, s.body.value));
      } else {
        assert Calls(services) == Calls(init);
      }
    }
  }

  ghost predicate OffersIn(cs: seq<Call>, title: string, details: ParsedRpc) {
    exists i: nat :: CountsCall(cs, i, title) && RpcDetails(cs[i].rpc) == details
  }

  lemma {:induction false} BoundIsOffered(cs: seq<Call>, title: string, details: ParsedRpc)
    ensures var bound := Write(CallEntries(cs), map[]);
            title in bound && bound[title] == details <==> OffersIn(cs, title, details)
  {
    if cs != [] {
      var init, c := cs[..|cs| - 1], cs[|cs| - 1];
      BoundIsOffered(init, title, details);
      var here := Entry(c.service + "." + c.rpc.name, RpcDetails(c.rpc));
      WriteConcat(CallEntries(init), [here], map[]);
      WriteOne(here, Write(CallEntries(init), map[]));
      OffersNext(cs, title, details);
    }
  }

  lemma OffersNext(cs: seq<Call>, title: string, details: ParsedRpc)
    requires cs != []
    ensures var init, c := cs[..|cs| - 1], cs[|cs| - 1];
            OffersIn(cs, title, details) <==>
            if IsCalled(c, title) then details == RpcDetails(c.rpc) else OffersIn(init, title, details)
  {
    var init, c := cs[..|cs| - 1], cs[|cs| - 1];
    if IsCalled(c, title) {
      assert CountsCall(cs, |cs| - 1, title);
    } else {
      assert forall i: nat :: CountsCall(cs, i, title) <==> CountsCall(init, i, title);
      if OffersIn(init, title, details) {
        var i: nat :| CountsCall(init, i, title) && RpcDetails(init[i].rpc) == details;
        assert CountsCall(cs, i, title) && cs[i] == init[i];
      }
      if OffersIn(cs, title, details) {
        var i: nat :| CountsCall(cs, i, title) && RpcDetails(cs[i].rpc) == details;
        assert CountsCall(init, i, title) && cs[i] == init[i];
      }
    }
  }

  /** The RPC table holds exactly the RPCs that count, with their own types and streaming. */
  lemma CallTable(services: seq<Service>, title: string, details: ParsedRpc)
    ensures title in RpcsByName(services) && RpcsByName(services)[title] == details <==>
            exists r :: Offers(services, title, r) && RpcDetails(r) == details
  {
    ServicesAreCalls(services);
    BoundIsOffered(Calls(services), title, details);
    if OffersIn(Calls(services), title, details) {
      var i: nat :| CountsCall(Calls(services), i, title) && RpcDetails(Calls(services)[i].rpc) == details;
      assert Offers(services, title, Calls(services)[i].rpc);
    }
    if r :| Offers(services, title, r) && RpcDetails(r) == details {
      var i: nat :| CountsCall(Calls(services), i, title) && Calls(services)[i].rpc == r;
      assert OffersIn(Calls(services), title, details);
    }
  }

  // ---------------------------------------------------------------------------
  // The rules

  ghost predicate HasPath(messages: seq<Message>, path: string) {
    exists names :: IsPath(messages, names) && Dotted(names) == path
  }

  ghost predicate HasNumber(enums: seq<EnumDef>, enum: string, n: int) {
    exists v :: HasValue(enums, enum, v) && ParseProtoNumber(v.number) == Some(n)
  }

  predicate SamePackage(a: ProtoBody, b: ProtoBody) {
    (if a.packages == [] then "" else a.packages[0]) == (if b.packages == [] then "" else b.packages[0])
  }

  ghost predicate LosesPath(a: ProtoBody, b: ProtoBody) {
    exists path :: HasPath(a.messages, path) && !HasPath(b.messages, path)
  }

  ghost predicate LosesService(a: ProtoBody, b: ProtoBody) {
    exists s :: s in a.services && forall s' :: s' in b.services ==> s'.name != s.name
  }

  ghost predicate LosesEnum(a: ProtoBody, b: ProtoBody) {
    exists e :: e in a.enums && forall e' :: e' in b.enums ==> e'.name != e.name
  }

  /** A number is gone from its message, or has another type there. */
  ghost predicate LosesField(a: ProtoBody, b: ProtoBody) {
    exists title, n, name, typ :: Declared(a.messages, title, n, name, typ) &&
      forall name', typ' :: Declared(b.messages, title, n, name', typ') ==> typ' != typ
  }

  /** An RPC is gone, or has another signature. */
  ghost predicate LosesRpc(a: ProtoBody, b: ProtoBody) {
    exists title, r :: Offers(a.services, title, r) && forall r' :: Offers(b.services, title, r') ==> !SameSignature(r, r')
  }

  ghost predicate LosesNumber(a: ProtoBody, b: ProtoBody) {
    exists enum, n :: HasNumber(a.enums, enum, n) && !HasNumber(b.enums, enum, n)
  }

  ghost predicate Breaks(a: ProtoBody, b: ProtoBody) {
    || !SamePackage(a, b) || LosesPath(a, b) || LosesService(a, b) || LosesEnum(a, b)
    || LosesField(a, b) || LosesRpc(a, b) || LosesNumber(a, b)
  }

  /** A number of a message is kept under another name. */
  ghost predicate RenamesField(a: ProtoBody, b: ProtoBody) {
    exists title, n, name, typ, name', typ' ::
      Declared(a.messages, title, n, name, typ) && Declared(b.messages, title, n, name', typ') && name != name'
  }

  ghost predicate Strains(a: ProtoBody, b: ProtoBody) {
    RequiredDecls(Outline(a.messages, [])) < RequiredDecls(Outline(b.messages, [])) || RenamesField(a, b)
  }

  // Each clause of the comparison of contracts, in these terms

  lemma PathsIff(a: ProtoBody, b: ProtoBody)
    ensures MessagePaths(a.messages) <= MessagePaths(b.messages) <==> !LosesPath(a, b)
  {
    forall path
      ensures path in MessagePaths(a.messages) <==> HasPath(a.messages, path)
      ensures path in MessagePaths(b.messages) <==> HasPath(b.messages, path)
    {
      PathIsFound(a.messages, path);
      PathIsFound(b.messages, path);
    }
  }

  lemma PathIsFound(messages: seq<Message>, path: string)
    ensures path in MessagePaths(messages) <==> HasPath(messages, path)
  {
    if path in MessagePaths(messages) {
      var names := PathOfName(messages, path);
    }
    if HasPath(messages, path) {
      var names :| IsPath(messages, names) && Dotted(names) == path;
      NameOfPath(messages, names);
    }
  }

  lemma NamesIff(a: ProtoBody, b: ProtoBody)
    ensures ServiceNames(a.services) <= ServiceNames(b.services) <==> !LosesService(a, b)
    ensures EnumNames(a.enums) <= EnumNames(b.enums) <==> !LosesEnum(a, b)
  {
    forall s | s in a.services
      ensures s.name in ServiceNames(b.services) <==> exists s' :: s' in b.services && s'.name == s.name
    {
    }
    forall e | e in a.enums
      ensures e.name in EnumNames(b.enums) <==> exists e' :: e' in b.enums && e'.name == e.name
    {
    }
  }

  ghost predicate KeepsTypes(x: map<string, ParsedField>, y: map<string, ParsedField>) {
    forall k :: k in x ==> k in y && x[k].typ == y[k].typ
  }

  /** Every binding of the field table is a declaration that counts. */
  lemma BindingIsDeclared(messages: seq<Message>, key: string) returns (title: string, n: int)
    requires key in FieldsByNumber(messages)
    ensures key == NumberKey(title, n)
    ensures var f := FieldsByNumber(messages)[key]; Declared(messages, title, n, f.name, f.typ)
  {
    assert Title([]) == "";
    FieldsAreOutlined(messages, []);
    title, n := KeyIsTitled(Outline(messages, []), key);
    var f := FieldsByNumber(messages)[key];
    FieldTable(messages, title, n, f.name, f.typ);
  }

  lemma FieldsIff(a: ProtoBody, b: ProtoBody)
    ensures KeepsTypes(FieldsByNumber(a.messages), FieldsByNumber(b.messages)) <==> !LosesField(a, b)
  {
    var x, y := FieldsByNumber(a.messages), FieldsByNumber(b.messages);
    if LosesField(a, b) {
      var title, n, name, typ :| Declared(a.messages, title, n, name, typ) &&
        forall name', typ' :: Declared(b.messages, title, n, name', typ') ==> typ' != typ;
      FieldTable(a.messages, title, n, name, typ);
      var key := NumberKey(title, n);
      if key in y {
        FieldTable(b.messages, title, n, y[key].name, y[key].typ);
      }
      assert key in x && x[key].typ == typ;
    }
    if !KeepsTypes(x, y) {
      var key :| key in x && (key !in y || x[key].typ != y[key].typ);
      var title, n := BindingIsDeclared(a.messages, key);
      forall name', typ' | Declared(b.messages, title, n, name', typ')
        ensures typ' != x[key].typ
      {
        FieldTable(b.messages, title, n, name', typ');
      }
      assert LosesField(a, b);
    }
  }

  lemma RenamesIff(a: ProtoBody, b: ProtoBody)
    ensures Renames(ContractOf(a), ContractOf(b)) <==> RenamesField(a, b)
  {
    var x, y := FieldsByNumber(a.messages), FieldsByNumber(b.messages);
    if RenamesField(a, b) {
      var title, n, name, typ, name', typ' :|
        Declared(a.messages, title, n, name, typ) && Declared(b.messages, title, n, name', typ') && name != name';
      FieldTable(a.messages, title, n, name, typ);
      FieldTable(b.messages, title, n, name', typ');
      assert x[NumberKey(title, n)].name != y[NumberKey(title, n)].name;
    }
    if Renames(ContractOf(a), ContractOf(b)) {
      var key :| key in x && key in y && x[key].name != y[key].name;
      var title, n := BindingIsDeclared(a.messages, key);
      FieldTable(b.messages, title, n, y[key].name, y[key].typ);
      assert RenamesField(a, b);
    }
  }

  ghost predicate KeepsRpcs(x: map<string, ParsedRpc>, y: map<string, ParsedRpc>) {
    forall k :: k in x ==> k in y && x[k] == y[k]
  }

  lemma RpcsIff(a: ProtoBody, b: ProtoBody)
    ensures KeepsRpcs(RpcsByName(a.services), RpcsByName(b.services)) <==> !LosesRpc(a, b)
  {
    var x, y := RpcsByName(a.services), RpcsByName(b.services);
    if LosesRpc(a, b) {
      var title, r :| Offers(a.services, title, r) && forall r' :: Offers(b.services, title, r') ==> !SameSignature(r, r');
      CallTable(a.services, title, RpcDetails(r));
      if title in y && y[title] == RpcDetails(r) {
        CallTable(b.services, title, y[title]);
        var r' :| Offers(b.services, title, r') && RpcDetails(r') == y[title];
        SignatureIsDetails(r, r');
      }
      assert title in x && x[title] == RpcDetails(r);
    }
    if !KeepsRpcs(x, y) {
      var title :| title in x && (title !in y || x[title] != y[title]);
      CallTable(a.services, title, x[title]);
      var r :| Offers(a.services, title, r) && RpcDetails(r) == x[title];
      forall r' | Offers(b.services, title, r')
        ensures !SameSignature(r, r')
      {
        CallTable(b.services, title, RpcDetails(r'));
        SignatureIsDetails(r, r');
      }
      assert LosesRpc(a, b);
    }
  }

  lemma NumberIsKey(enums: seq<EnumDef>, enum: string, n: int)
    ensures NumberKey(enum, n) in EnumValuesByNumber(enums) <==> HasNumber(enums, enum, n)
  {
    var key := NumberKey(enum, n);
    EnumValueTable(enums, key);
    if key in EnumValuesByNumber(enums) {
      var other, v, m :| HasValue(enums, other, v) && ParseProtoNumber(v.number) == Some(m) &&
                         Entry(key, EnumValuesByNumber(enums)[key]) == Entry(NumberKey(other, m), v.ident);
      NumberKeyInjective(enum, n, other, m);
    }
    if HasNumber(enums, enum, n) {
      var v :| HasValue(enums, enum, v) && ParseProtoNumber(v.number) == Some(n);
      assert IsValueEntry(enums, Entry(key, v.ident));
    }
  }

  lemma NumbersIff(a: ProtoBody, b: ProtoBody)
    ensures EnumValuesByNumber(a.enums).Keys <= EnumValuesByNumber(b.enums).Keys <==> !LosesNumber(a, b)
  {
    if LosesNumber(a, b) {
      var enum, n :| HasNumber(a.enums, enum, n) && !HasNumber(b.enums, enum, n);
      NumberIsKey(a.enums, enum, n);
      NumberIsKey(b.enums, enum, n);
    }
    if key :| key in EnumValuesByNumber(a.enums) && key !in EnumValuesByNumber(b.enums) {
      EnumValueTable(a.enums, key);
      var enum, v, n :| HasValue(a.enums, enum, v) && ParseProtoNumber(v.number) == Some(n) &&
                        Entry(key, EnumValuesByNumber(a.enums)[key]) == Entry(NumberKey(enum, n), v.ident);
      NumberIsKey(b.enums, enum, n);
      assert HasNumber(a.enums, enum, n);
      assert LosesNumber(a, b);
    }
  }

  lemma HonoursIff(a: ProtoBody, b: ProtoBody)
    ensures Honours(ContractOf(a), ContractOf(b)) <==> !Breaks(a, b)
  {
    PathsIff(a, b);
    NamesIff(a, b);
    FieldsIff(a, b);
    RpcsIff(a, b);
    NumbersIff(a, b);
  }

  lemma StrainsIff(a: ProtoBody, b: ProtoBody)
    ensures ContractOf(a).required < ContractOf(b).required || Renames(ContractOf(a), ContractOf(b)) <==> Strains(a, b)
  {
    RequiredIsCounted(a.messages, []);
    RequiredIsCounted(b.messages, []);
    RenamesIff(a, b);
  }

  /**
   The judgement on two files with bodies: critical exactly when something declared is lost or changed on
   the wire, a warning exactly when nothing is but more fields are required or a number has a new name.
   */
  lemma SeverityByDeclarations(a: ProtoBody, b: ProtoBody)
    ensures var s := SeverityOf(Some(ProtoFile(Some(a))), Some(ProtoFile(Some(b))));
            && (s == Critical <==> Breaks(a, b))
            && (s == Warning <==> !Breaks(a, b) && Strains(a, b))
            && (s == Info <==> !Breaks(a, b) && !Strains(a, b))
  {
    HonoursIff(a, b);
    StrainsIff(a, b);
  }

  /** The judgement where there is less to compare: without a parse a warning, without a body nothing. */
  lemma SeverityWithoutBodies(previous: Option<ProtoFile>, current: Option<ProtoFile>)
    requires !IsParsed(previous) || !IsParsed(current)
    ensures SeverityOf(previous, current) == if previous == None || current == None then Warning else Info
  {
  }
}
