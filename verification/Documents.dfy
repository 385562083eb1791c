/** JSON documents as values; the members of an object keep their order. */
module Documents {
  datatype Json =
    | Null
    | Boolean(b: bool)
    | Integer(n: int)
    | Number(r: real)
    | Text(s: string)
    | Array(items: seq<Json>)
    | Object(members: seq<Member>)

  datatype Member = Member(key: string, value: Json)
}
