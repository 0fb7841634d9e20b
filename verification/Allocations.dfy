// Requests for memory, numbered in the order in which they are made.
module Allocations {

  // Whether request number i is granted; those behind the list are.
  predicate Granted(memory: seq<bool>, i: nat) { i >= |memory| || memory[i] }

  // None of the requests from a up to b is refused.
  predicate Served(memory: seq<bool>, a: nat, b: nat) {
    forall i | a <= i < b :: Granted(memory, i)
  }
}
