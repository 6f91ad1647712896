/** The type of a Move value as a tree: five scalar leaves, vectors of one
    element type, and fully qualified struct types with generic arguments. */
module TypeTags {
  import opened AccountAddresses

  datatype TypeTag =
    | Bool
    | U8
    | U64
    | U128
    | Address
    | Vector(element: TypeTag)
    | Struct(address: AccountAddress, moduleName: string, name: string, typeArgs: seq<TypeTag>)

  predicate IsLetter(c: char)
  {
    'a' <= c <= 'z' || 'A' <= c <= 'Z'
  }

  predicate IsIdentifierChar(c: char)
  {
    IsLetter(c) || '0' <= c <= '9' || c == '_'
  }

  /** A Move identifier: a letter or underscore, then letters, digits and underscores. */
  predicate IsIdentifier(s: string)
  {
    && |s| >= 1
    && (IsLetter(s[0]) || s[0] == '_')
    && forall i :: 0 <= i < |s| ==> IsIdentifierChar(s[i])
  }

  /** The tags a type signature can denote: every struct names its module and
      type with identifiers, all the way down. */
  predicate WellFormed(t: TypeTag)
  {
    match t
    case Vector(e) => WellFormed(e)
    case Struct(_, m, n, args) =>
      IsIdentifier(m) && IsIdentifier(n) && forall i :: 0 <= i < |args| ==> WellFormed(args[i])
    case _ => true
  }

  /** The canonical type signature of a tag: no white space, addresses in full. */
  function Format(t: TypeTag): (r: string)
  {
    match t
    case Bool => "bool"
    case U8 => "u8"
    case U64 => "u64"
    case U128 => "u128"
    case Address => "address"
    case Vector(e) => "vector" + "<" + Format(e) + ">"
    case Struct(a, m, n, args) =>
      var head := FormatAddress(a) + "::" + m + "::" + n;
      if |args| == 0 then head else head + "<" + FormatList(args) + ">"
  }

  /** The signatures of `ts`, separated by commas. */
  function FormatList(ts: seq<TypeTag>): (r: string)
  {
    if |ts| == 0 then ""
    else if |ts| == 1 then Format(ts[0])
    else Format(ts[0]) + "," + FormatList(ts[1..])
  }
}
