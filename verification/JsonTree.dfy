/** The value a parsed document denotes. Array and object children are sibling chains, as in the source. */
module JsonTree {
  import opened Bytes

  datatype Json =
    | Null
    | False
    | True
    | Number(value: real)
    | String(text: bytes)
    | Array(items: Items)
    | Object(members: Members)

  datatype Items = NoItems | Item(head: Json, tail: Items)

  datatype Members = NoMembers | Member(key: bytes, value: Json, rest: Members)

  const INT_MAX: int := 0x7FFF_FFFF
  const INT_MIN: int := -0x8000_0000
  const NESTING_LIMIT: nat := 1000

  function Max(a: nat, b: nat): nat { if a < b then b else a }

  /** How many containers enclose the deepest leaf. */
  function Nesting(v: Json): nat {
    match v
    case Array(items) => 1 + ItemsNesting(items)
    case Object(members) => 1 + MembersNesting(members)
    case _ => 0
  }

  function ItemsNesting(items: Items): nat {
    match items
    case NoItems => 0
    case Item(head, tail) => Max(Nesting(head), ItemsNesting(tail))
  }

  function MembersNesting(members: Members): nat {
    match members
    case NoMembers => 0
    case Member(_, value, rest) => Max(Nesting(value), MembersNesting(rest))
  }

  /** The number of constructors, used as a termination measure by the loops over sibling chains. */
  function Size(v: Json): nat {
    match v
    case Array(items) => 1 + ItemsSize(items)
    case Object(members) => 1 + MembersSize(members)
    case _ => 0
  }

  function ItemsSize(items: Items): nat {
    match items
    case NoItems => 0
    case Item(head, tail) => 1 + Size(head) + ItemsSize(tail)
  }

  function MembersSize(members: Members): nat {
    match members
    case NoMembers => 0
    case Member(_, value, rest) => 1 + Size(value) + MembersSize(rest)
  }
}
