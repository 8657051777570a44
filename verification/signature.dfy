/** The signature table (signature.cpp): arities of function symbols and of
    relation symbols, kept in two separate tables, and the search for a
    function symbol `uf<n>` that is not yet registered. */
module Signatures {
  import opened Names

  type Arity = nat

  datatype Signature = Signature(functions: map<Name, Arity>, predicates: map<Name, Arity>)

  const Empty := Signature(map[], map[])

  /** Prefix of the names `getUniqueFunctionSymbol` produces. */
  const UniquePrefix := "uf"

  /** `hasFunctionSymbol`: a missing symbol has no arity; a present one
      matches only the arity it was registered with. */
  predicate HasFunctionSymbol(sig: Signature, f: Name, ar: Arity)
  {
    f in sig.functions && sig.functions[f] == ar
  }

  /** `hasPredicateSymbol`, the same question on the relation table. */
  predicate HasPredicateSymbol(sig: Signature, p: Name, ar: Arity)
  {
    p in sig.predicates && sig.predicates[p] == ar
  }

  /** `addFunctionSymbol`: inserts the symbol or overwrites its arity. */
  function AddFunctionSymbol(sig: Signature, f: Name, ar: Arity): (r: Signature)
    ensures forall a :: HasFunctionSymbol(r, f, a) <==> a == ar
    ensures forall g, a :: g != f ==> (HasFunctionSymbol(r, g, a) <==> HasFunctionSymbol(sig, g, a))
    ensures forall p, a :: HasPredicateSymbol(r, p, a) <==> HasPredicateSymbol(sig, p, a)
  {
    sig.(functions := sig.functions[f := ar])
  }

  /** `addPredicateSymbol`: inserts the symbol or overwrites its arity. */
  function AddPredicateSymbol(sig: Signature, p: Name, ar: Arity): (r: Signature)
    ensures forall a :: HasPredicateSymbol(r, p, a) <==> a == ar
    ensures forall q, a :: q != p ==> (HasPredicateSymbol(r, q, a) <==> HasPredicateSymbol(sig, q, a))
    ensures forall f, a :: HasFunctionSymbol(r, f, a) <==> HasFunctionSymbol(sig, f, a)
  {
    sig.(predicates := sig.predicates[p := ar])
  }

  /** `getUniqueFunctionSymbol`: the first `uf<n>` from the counter on that is
      not a registered function symbol, with any arity. The table itself is
      not changed (the function is `const` in the source); the counter, a
      static member there, is passed in and returned advanced. Relation
      symbols are not consulted. */
  function UniqueFunctionSymbol(sig: Signature, counter: nat): (r: (Name, nat))
    ensures forall a :: !HasFunctionSymbol(sig, r.0, a)
    ensures r.1 > counter && r.0 == Candidate(UniquePrefix, r.1 - 1)
    ensures forall k :: counter <= k < r.1 - 1 ==> Candidate(UniquePrefix, k) in sig.functions
  {
    Fresh(UniquePrefix, sig.functions.Keys, counter)
  }

  // ---------------------------------------------------------------------
  // Lemmas
  // ---------------------------------------------------------------------

  /** A symbol has at most one arity in each table. */
  lemma ArityUnique(sig: Signature, f: Name, a: Arity, b: Arity)
    ensures HasFunctionSymbol(sig, f, a) && HasFunctionSymbol(sig, f, b) ==> a == b
    ensures HasPredicateSymbol(sig, f, a) && HasPredicateSymbol(sig, f, b) ==> a == b
  {
  }

  /** Registering a function symbol does not make it a relation symbol, and
      the other way round: the two tables are independent. */
  lemma TablesIndependent(f: Name, ar: Arity)
    ensures HasFunctionSymbol(AddFunctionSymbol(Empty, f, ar), f, ar)
    ensures !HasPredicateSymbol(AddFunctionSymbol(Empty, f, ar), f, ar)
    ensures HasPredicateSymbol(AddPredicateSymbol(Empty, f, ar), f, ar)
    ensures !HasFunctionSymbol(AddPredicateSymbol(Empty, f, ar), f, ar)
  {
  }

  /** Re-registering a symbol with its current arity changes nothing, and a
      second registration replaces the first. */
  lemma AddFunctionSymbolOverwrites(sig: Signature, f: Name, a: Arity, b: Arity)
    ensures AddFunctionSymbol(AddFunctionSymbol(sig, f, a), f, b) == AddFunctionSymbol(sig, f, b)
    ensures HasFunctionSymbol(sig, f, a) ==> AddFunctionSymbol(sig, f, a) == sig
  {
  }

  /** The name produced is fresh with respect to the table, and registering it
      with arity `ar` makes it a function symbol of exactly that arity while
      keeping every symbol already there. */
  lemma UniqueSymbolExtends(sig: Signature, counter: nat, ar: Arity)
    ensures var u := UniqueFunctionSymbol(sig, counter).0;
      var sig' := AddFunctionSymbol(sig, u, ar);
      && HasFunctionSymbol(sig', u, ar)
      && (forall g, a :: HasFunctionSymbol(sig, g, a) ==> HasFunctionSymbol(sig', g, a))
  {
  }

  /** An empty table takes the first candidate: counter 0 gives `uf0`. */
  lemma UniqueSymbolOfEmpty()
    ensures UniqueFunctionSymbol(Empty, 0) == ("uf0", 1)
  {
    assert NatToString(0) == "0";
    assert Candidate(UniquePrefix, 0) == "uf0";
    var noKeys: set<Name> := {};
    assert Empty.functions.Keys == noKeys;
  }
}
