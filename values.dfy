/** Values that flow through the CRUD layer: request bodies, defaults, stored rows,
    and the errors the layer raises. */
module Values {

  datatype Option<+T> = None | Some(value: T)

  /** A JSON-like value: what a request body field, a column default or a row field holds. */
  datatype Value =
    | Null
    | Int(i: int)
    | Str(s: string)
    | Bool(b: bool)
    | List(items: seq<Value>)
    | Object(fields: map<string, Value>)

  /** A record or stored row: property name to value. */
  type Row = map<string, Value>

  /** The exceptions the layer raises, by kind. */
  datatype Error =
    | NotFound(entity: string, ids: seq<Value>)   // a row, or referenced rows, with these ids do not exist
    | RelationNotFound(relation: string)          // the relation is not in the entity metadata
    | Forbidden                                   // the relation exists but the model does not expose it
    | NotImplemented                              // composite primary keys, or a missing service property
    | InternalServerError                         // a persistence failure, without detail
    | QueryFailed                                 // the store rejected a malformed query
    | TypeError(reason: string)                   // a JavaScript TypeError thrown by the code itself
    | MissingServiceMetadata(service: string)     // prepareRoute on a class without service metadata

  datatype Result<+T> = Ok(value: T) | Err(error: Error)

  /** JavaScript truthiness of an optional string (undefined and "" are falsy). */
  predicate Truthy(s: Option<string>) {
    s.Some? && s.value != ""
  }
}
