/**
 The product catalog and the resolution of a cart of display names to a set
 of product indices.
 */
module Products {
  /** The two catalog mappings the scorer uses: display name to index, and
      index to display name. */
  datatype Catalog = Catalog(nameToIdx: map<string, nat>, idxToName: map<nat, string>)

  /** The indices of the known names of a cart, in cart order; unknown names are
      skipped and repeated names repeat their index. */
  function CartIndices(names: seq<string>, nameToIdx: map<string, nat>): (r: seq<nat>)
    ensures |r| <= |names|
    ensures forall n :: n in names && n in nameToIdx ==> nameToIdx[n] in r
    ensures forall i :: i in r ==> exists n :: n in names && n in nameToIdx && nameToIdx[n] == i
    decreases |names|
  {
    if names == [] then []
    else
      var head := if names[0] in nameToIdx then [nameToIdx[names[0]]] else [];
      var rest := CartIndices(names[1..], nameToIdx);
      assert forall n :: n in names ==> n == names[0] || n in names[1..];
      assert forall n :: n in names[1..] ==> n in names;
      head + rest
  }

  /** The cart as a set of indices: the index of every known name, and
      nothing else. */
  function ResolveCart(names: seq<string>, nameToIdx: map<string, nat>): (cart: set<nat>)
    ensures forall n :: n in names && n in nameToIdx ==> nameToIdx[n] in cart
    ensures forall i :: i in cart ==> exists n :: n in names && n in nameToIdx && nameToIdx[n] == i
  {
    set i | i in CartIndices(names, nameToIdx)
  }

  /** A cart resolves to exactly the indices of the names it contains that the
      catalog knows. */
  lemma {:induction false} ResolveCartMembers(names: seq<string>, nameToIdx: map<string, nat>, i: nat)
    ensures i in ResolveCart(names, nameToIdx) <==> exists n :: n in names && n in nameToIdx && nameToIdx[n] == i
    decreases |names|
  {
    if names != [] {
      ResolveCartMembers(names[1..], nameToIdx, i);
      var head := if names[0] in nameToIdx then [nameToIdx[names[0]]] else [];
      assert CartIndices(names, nameToIdx) == head + CartIndices(names[1..], nameToIdx);
      if exists n :: n in names && n in nameToIdx && nameToIdx[n] == i {
        var n :| n in names && n in nameToIdx && nameToIdx[n] == i;
        if n != names[0] {
          assert n in names[1..];
        }
      }
      forall n | n in names[1..]
        ensures n in names
      {
      }
    }
  }

  /** Resolving a concatenation resolves each part. */
  lemma ResolveCartAppend(a: seq<string>, b: seq<string>, nameToIdx: map<string, nat>)
    ensures ResolveCart(a + b, nameToIdx) == ResolveCart(a, nameToIdx) + ResolveCart(b, nameToIdx)
  {
    forall i: nat
      ensures i in ResolveCart(a + b, nameToIdx) <==> i in ResolveCart(a, nameToIdx) + ResolveCart(b, nameToIdx)
    {
      ResolveCartMembers(a + b, nameToIdx, i);
      ResolveCartMembers(a, nameToIdx, i);
      ResolveCartMembers(b, nameToIdx, i);
    }
  }

  /** Names the catalog does not know, inserted anywhere in the cart, change
      nothing. */
  lemma UnknownNamesIgnored(a: seq<string>, unknown: seq<string>, b: seq<string>, nameToIdx: map<string, nat>)
    requires forall n :: n in unknown ==> n !in nameToIdx
    ensures ResolveCart(a + unknown + b, nameToIdx) == ResolveCart(a + b, nameToIdx)
  {
    ResolveCartAppend(a + unknown, b, nameToIdx);
    ResolveCartAppend(a, unknown, nameToIdx);
    ResolveCartAppend(a, b, nameToIdx);
    forall i: nat
      ensures i !in ResolveCart(unknown, nameToIdx)
    {
      ResolveCartMembers(unknown, nameToIdx, i);
    }
  }

  /** A name repeated in the cart collapses onto its first occurrence. */
  lemma RepeatedNamesCollapse(a: seq<string>, n: string, b: seq<string>, nameToIdx: map<string, nat>)
    requires n in a
    ensures ResolveCart(a + [n] + b, nameToIdx) == ResolveCart(a + b, nameToIdx)
  {
    ResolveCartAppend(a + [n], b, nameToIdx);
    ResolveCartAppend(a, [n], nameToIdx);
    ResolveCartAppend(a, b, nameToIdx);
    forall i: nat | i in ResolveCart([n], nameToIdx)
      ensures i in ResolveCart(a, nameToIdx)
    {
      ResolveCartMembers([n], nameToIdx, i);
      ResolveCartMembers(a, nameToIdx, i);
    }
  }

  /** The resolved cart depends only on which names occur, not on their order
      or multiplicity. */
  lemma ResolveCartSetOfNames(a: seq<string>, b: seq<string>, nameToIdx: map<string, nat>)
    requires forall n :: n in a <==> n in b
    ensures ResolveCart(a, nameToIdx) == ResolveCart(b, nameToIdx)
  {
    forall i: nat
      ensures i in ResolveCart(a, nameToIdx) <==> i in ResolveCart(b, nameToIdx)
    {
      ResolveCartMembers(a, nameToIdx, i);
      ResolveCartMembers(b, nameToIdx, i);
    }
  }
}
