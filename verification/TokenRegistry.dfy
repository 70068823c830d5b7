// The registry that numbers mints: ids are handed out in order and never change.
module TokenRegistries {
  import opened Domain
  import opened Network

  const ID_SPACE: nat := 0x1_0000_0000

  class TokenRegistry {
    var toID: map<PublicKey, TokenID>
    var toMint: seq<PublicKey>
    var nextID: nat

    /** The two tables are inverse to each other, and the counter is the number of ids used. */
    ghost predicate Valid()
      reads this
    {
      && nextID == |toMint| == |toID| < ID_SPACE
      && (forall m :: m in toID ==> toID[m] < |toMint| && toMint[toID[m]] == m)
      && (forall i :: 0 <= i < |toMint| ==> toMint[i] in toID && toID[toMint[i]] == i)
    }

    constructor ()
      ensures Valid() && toMint == []
    {
      toID := map[];
      toMint := [];
      nextID := 0;
    }

    /** The id of a mint, numbering it if it is new. Existing ids keep their meaning. */
    method GetOrCreate(mint: PublicKey) returns (id: TokenID)
      requires Valid() && |toMint| < ID_SPACE - 1
      modifies this
      ensures Valid() && id < |toMint| && toMint[id] == mint
      ensures toMint == if mint in old(toID) then old(toMint) else old(toMint) + [mint]
      ensures toID.Keys == old(toID.Keys) + {mint}
      ensures forall m :: m in old(toID) ==> toID[m] == old(toID)[m]
    {
      if mint in toID {
        return toID[mint];
      }
      id := nextID;
      nextID := (nextID + 1) % ID_SPACE;
      toID := toID[mint := id];
      toMint := toMint + [mint];
    }

    /** The one position of a mint in the id table, or none when it is not there. */
    method GetID(mint: PublicKey) returns (id: Option<TokenID>)
      requires Valid()
      ensures id.Some? ==> id.value < |toMint| && toMint[id.value] == mint && mint in toID && toID[mint] == id.value
      ensures id.None? ==> mint !in toMint && mint !in toID
    {
      if mint in toID {
        return Some(toID[mint]);
      }
      return None;
    }

    function GetMint(id: TokenID): PublicKey
      reads this
    {
      if id < |toMint| then toMint[id] else ZERO_KEY
    }

    /** Looking a mint up and translating back is the identity, in both directions. */
    lemma RoundTrip(m: PublicKey, i: TokenID)
      requires Valid()
      ensures m in toID ==> GetMint(toID[m]) == m
      ensures i < |toMint| ==> GetMint(i) in toID && toID[GetMint(i)] == i
      ensures m !in toID ==> forall k :: 0 <= k < |toMint| ==> GetMint(k) != m
    {
    }
  }
}
