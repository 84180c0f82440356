/**
 A parsed .proto file, with the parts that the drift rules look at.  Optional
 bodies are the nil pointers of the parser's own structures.
 */
module Proto {
  import opened Base

  datatype Field = Field(name: string, typ: string, number: string, required: bool)

  datatype MapField = MapField(name: string, keyType: string, typ: string, number: string)

  datatype OneofField = OneofField(name: string, typ: string, number: string)

  datatype Oneof = Oneof(fields: seq<OneofField>)

  datatype Message = Message(name: string, body: Option<MessageBody>)

  datatype MessageBody = MessageBody(fields: seq<Field>, maps: seq<MapField>, oneofs: seq<Oneof>, messages: seq<Message>)

  datatype Endpoint = Endpoint(messageType: string, stream: bool)

  datatype Rpc = Rpc(name: string, request: Option<Endpoint>, response: Option<Endpoint>)

  datatype Service = Service(name: string, body: Option<seq<Rpc>>)

  datatype EnumValue = EnumValue(ident: string, number: string)

  datatype EnumDef = EnumDef(name: string, body: Option<seq<EnumValue>>)

  datatype ProtoBody = ProtoBody(packages: seq<string>, messages: seq<Message>, services: seq<Service>, enums: seq<EnumDef>)

  datatype ProtoFile = ProtoFile(body: Option<ProtoBody>)
}
