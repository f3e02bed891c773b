/**
 * The part of the index-expression algebra that the modelled code queries: a
 * dimension or scalar is either known at lowering time (a literal), known
 * only at run time (a symbol), or could not be derived at all (undefined).
 */
module IndexExprs {

  datatype IndexExpr = Undefined | Literal(value: int) | Symbol(id: nat)
  {
    predicate IsUndefined() { Undefined? }

    predicate IsLiteral() { Literal? }

    function GetLiteral(): int
      requires IsLiteral()
    {
      value
    }
  }
}
