/** The closed schema datatype (src/types.ts) and the dynamic values it describes. */
module Types {
  import opened Utils

  /** The six fixed-width number kinds: unsigned and signed at 8, 16 and 32 bits. */
  datatype NumberKind = UInt8 | UInt16 | UInt32 | Int8 | Int16 | Int32

  /**
    * A schema node. `Bool` and `String` carry no child; an `Array` has one element
    * schema shared by all elements; a `Struct` lists its properties in wire order;
    * a `Map` has one value schema for all entries and a `key` field the codec never reads.
    */
  datatype Schema =
    | Number(kind: NumberKind)
    | String
    | Bool
    | Array(items: Schema)
    | Struct(properties: seq<Property>)
    | Map(key: Bytes, value: Schema)

  /** One named property of a struct schema. */
  datatype Property = Property(key: Bytes, schema: Schema)

  /**
    * A value paired with a schema. `Absent` stands for `undefined`/`null`; a `Record`
    * is a JavaScript object as an ordered list of key/value entries (its key order is
    * the object's enumeration order).
    */
  datatype Value =
    | Absent
    | Boolean(b: bool)
    | Integer(n: int)
    | Text(bytes: Bytes)
    | List(items: seq<Value>)
    | Record(entries: seq<Entry>)

  datatype Entry = Entry(key: Bytes, value: Value)

  /** Why an encoding fails: a number out of its kind's range, or a value of the wrong shape. */
  datatype EncodeError =
    | OutOfRange(kind: NumberKind, value: int)
    | ShapeMismatch
}
