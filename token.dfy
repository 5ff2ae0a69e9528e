/**
 * com.anode.tool.document.Token and the array tokens the path parser
 * builds: one step of a document path such as `$.a.b[2].c[k=v].d[]`.
 * A token is set once by its constructor and only read afterwards, so it
 * is a value.
 */
module Tokens {

  /**
   * Plain is Token(field, isLeaf). The array forms are the three
   * constructor calls the parser makes on ArrayToken: `name[]`,
   * `name[key=value]` and `name[index]`.
   */
  datatype Token =
    | Plain(field: string, isLeaf: bool)
    | ArrayAll(field: string, isLeaf: bool)
    | ArrayFilter(field: string, key: string, value: string, isLeaf: bool)
    | ArrayIndex(field: string, index: int, isLeaf: bool)
  {
    /** Token.isArray() answers false; the array tokens answer true. */
    predicate IsArray()
    {
      !Plain?
    }
  }

  /**
   * new Token(field, isLeaf): getField() returns field, isLeaf() returns
   * isLeaf and isArray() is false, for as long as the token lives.
   */
  lemma PlainTokenAccessors(field: string, isLeaf: bool)
    ensures Plain(field, isLeaf).field == field
    ensures Plain(field, isLeaf).isLeaf == isLeaf
    ensures !Plain(field, isLeaf).IsArray()
  {
  }

  /** Every array form answers isArray() with true. */
  lemma ArrayTokensAreArrays(t: Token)
    requires t.ArrayAll? || t.ArrayFilter? || t.ArrayIndex?
    ensures t.IsArray()
  {
  }
}
