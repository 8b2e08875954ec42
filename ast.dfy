/** The abstract syntax tree built by the parser. */
module Ast {

  /** `NumberNode`, `ArrayNode`, `MapNode` and `ConstRefNode`. */
  datatype Node =
    | Number(value: nat)
    | Array(items: seq<Node>)
    | Map(entries: seq<Entry>)
    | ConstRef(name: string)

  /** `DictItemNode`: one `key = value;` entry of a map, duplicates allowed. */
  datatype Entry = Entry(key: string, value: Node)

  /** `ConstDeclNode`: `var name = value`. */
  datatype ConstDecl = ConstDecl(name: string, value: Node)

  /** `ProgramNode`: the declarations in source order, then the root value. */
  datatype Program = Program(consts: seq<ConstDecl>, root: Node)
}
