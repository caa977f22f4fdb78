/** The payload values the apply engine moves (crates/rlmesh-adapters/src/apply/value.rs). */
module Values {
  import opened Tensors

  datatype Value =
    | Null
    | Boolean(flag: bool)
    | Integer(whole: int)
    | Tuple(items: seq<Value>)
    | Dense(tensor: Tensor)
    | Text(text: string)
    | Bytes(bytes: seq<nat>)
    | Number(number: real)
    | List(items: seq<Value>)
    | Map(fields: map<string, Value>)
}
