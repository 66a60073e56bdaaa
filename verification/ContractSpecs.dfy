/** The type language of a contract interface. */
module ContractSpecs {
  import opened Results

  datatype Primitive =
    | BoolType | U32 | I32 | U64 | I64 | U128 | I128 | U256 | I256
    | Bytes | String | Symbol | Address | Void | ErrorType | Val

  datatype TypeSpec =
    | Prim(primitive: Primitive)
    | BytesN(size: int)
    | OptionOf(inner: TypeSpec)
    | ResultOf(ok: TypeSpec, err: TypeSpec)
    | VecOf(item: TypeSpec)
    | MapOf(key: TypeSpec, value: TypeSpec)
    | TupleOf(elements: seq<TypeSpec>)
    | NamedType(name: string)

  datatype FieldSpec = FieldSpec(name: string, ty: TypeSpec, doc: Option<string>)

  datatype FunctionSpec = FunctionSpec(name: string, doc: Option<string>, params: seq<FieldSpec>, result: TypeSpec)

  datatype EventSpec = EventSpec(name: string, doc: Option<string>, topics: seq<FieldSpec>, data: seq<FieldSpec>)

  datatype EnumVariant = EnumVariant(name: string, doc: Option<string>, discriminant: int, value: Option<TypeSpec>)

  datatype UnionCase = UnionCase(name: string, doc: Option<string>, fields: seq<FieldSpec>)

  datatype UserDefinedType =
    | StructType(name: string, doc: Option<string>, fields: seq<FieldSpec>)
    | EnumType(name: string, doc: Option<string>, variants: seq<EnumVariant>)
    | UnionType(name: string, doc: Option<string>, cases: seq<UnionCase>)
}
