/** The tree a chain of cJSON nodes stands for: every child chain is a sequence. */
module JsonTree {
  import opened Bytes

  datatype Json =
    | Null
    | False
    | True
    | Number(n: int32)
    | Str(text: CString)
    | Arr(items: seq<Json>)
    | Obj(members: seq<Member>)

  datatype Member = Member(key: CString, value: Json)

  const NESTING_LIMIT: nat := 1000

  function Max(a: nat, b: nat): nat {
    if a < b then b else a
  }

  /** How many arrays and objects enclose the deepest point of the tree. */
  function Nesting(t: Json): nat
    decreases t, 1
  {
    match t
    case Arr(items) => 1 + NestingOfItems(items)
    case Obj(members) => 1 + NestingOfMembers(members)
    case _ => 0
  }

  function NestingOfItems(items: seq<Json>): nat
    decreases items, 0
  {
    if items == [] then 0 else Max(Nesting(items[0]), NestingOfItems(items[1..]))
  }

  function NestingOfMembers(members: seq<Member>): nat
    decreases members, 0
  {
    if members == [] then 0 else Max(Nesting(members[0].value), NestingOfMembers(members[1..]))
  }
}
