/** The tokens contexts are made of. */
module ContextTokens {

  /** Calls push a token; loop tokens say how often backedges were taken: exactly, or at least. */
  datatype Token = Callee(f: nat) | Peel(loop: nat, taken: nat) | Iter(loop: nat, atLeast: nat) | Other(id: nat)

  type Context = seq<Token>
}
