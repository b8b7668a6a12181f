/**
 * What the command trees need to know about a commander value. Go learns it
 * by reflection; here it is an explicit descriptor of the value's static type.
 */
module Commanders {

  /** One field of the struct a commander points to, with its struct tag as a key/value map. */
  datatype Field = Field(name: string, exported: bool, tags: map<string, string>)

  /**
   * The static shape of a commander value: whether it is a pointer, whether
   * the pointed-to type is a struct, that type's name and its fields in
   * declaration order.
   */
  datatype Commander = Commander(isPointer: bool, elemIsStruct: bool, typeName: string, fields: seq<Field>)

  /** A Go error value, identified by its message. */
  datatype Error = Error(message: string)

  /** The message of the error returned for a commander that is not a pointer to a struct. */
  const NotStructPointer: string := "Commander must be pointers to struct"

  predicate IsStructPointer(c: Commander) {
    c.isPointer && c.elemIsStruct
  }
}
