/** Token authentication: a map from tokens to users, and an index of the same tokens by their digest. */
module TokenAuthentication {
  import opened Wrappers

  datatype Entry = Entry(token: string, user: string)

  /** The two maps after a list of additions. */
  function Tokens(added: seq<Entry>): map<string, string> {
    if added == [] then map[]
    else var e := added[|added| - 1]; Tokens(added[..|added| - 1])[e.token := e.user]
  }

  function Index<D>(digest: string -> D, added: seq<Entry>): map<D, Entry> {
    if added == [] then map[]
    else var e := added[|added| - 1]; Index(digest, added[..|added| - 1])[digest(e.token) := e]
  }

  /** The user that the index gives for a token: the entry under its digest, if that is for the same token. */
  function Find<D(==)>(digest: string -> D, added: seq<Entry>, candidate: string): Option<string> {
    var index := Index(digest, added);
    if digest(candidate) in index && index[digest(candidate)].token == candidate
    then Some(index[digest(candidate)].user)
    else None
  }

  class TokenAuthentication<D(==)> {
    const digest: string -> D
    const prefix: string
    var tokens: map<string, string>
    var tokenIndex: map<D, Entry>
    ghost var added: seq<Entry>

    ghost predicate Valid()
      reads this
    {
      tokens == Tokens(added) && tokenIndex == Index(digest, added)
    }

    constructor (digest: string -> D, prefix: string)
      ensures Valid() && added == [] && this.digest == digest && this.prefix == prefix
    {
      this.digest, this.prefix := digest, prefix;
      tokens, tokenIndex, added := map[], map[], [];
    }

    method AddToken(token: string, user: string)
      requires Valid()
      modifies this
      ensures Valid() && added == old(added) + [Entry(token, user)]
      ensures tokens == old(tokens)[token := user]
    {
      tokenIndex := tokenIndex[digest(token) := Entry(token, user)];
      tokens := tokens[token := user];
      assert (added + [Entry(token, user)])[..|added|] == added;
      added := added + [Entry(token, user)];
    }

    /** Comparing in constant time is comparing. */
    method FindTokenConstantTime(candidate: string) returns (r: Option<string>)
      requires Valid()
      ensures r == Find(digest, added, candidate)
    {
      var d := digest(candidate);
      if d in tokenIndex {
        var entry := tokenIndex[d];
        return if entry.token == candidate then Some(entry.user) else None;
      }
      return None;
    }

    /** The user of the token that follows the prefix and a space in the configured header. */
    method Authenticate(header: Option<string>) returns (r: Option<string>)
      requires Valid()
      ensures r.Some? <==> header.Some? && prefix + " " <= header.value
                           && Find(digest, added, header.value[|prefix| + 1..]).Some?
      ensures r.Some? ==> r == Find(digest, added, header.value[|prefix| + 1..])
    {
      if header.Some? && prefix + " " <= header.value {
        r := FindTokenConstantTime(header.value[|prefix| + 1..]);
      } else {
        r := None;
      }
    }

    method GetUser(user: string) returns (found: bool)
      requires Valid()
      ensures found <==> user in Tokens(added).Values
    {
      found := user in tokens.Values;
    }
  }

  // ----- The index against the map -----

  /** The last addition whose token has the candidate's digest. */
  ghost predicate LastUnder<D(!new)>(digest: string -> D, added: seq<Entry>, candidate: string, k: nat)
    requires k < |added|
  {
    digest(added[k].token) == digest(candidate) && forall j :: k < j < |added| ==> digest(added[j].token) != digest(candidate)
  }

  lemma {:induction false} IndexHoldsLast<D(!new)>(digest: string -> D, added: seq<Entry>, candidate: string)
    ensures digest(candidate) in Index(digest, added) <==>
            exists k :: 0 <= k < |added| && LastUnder(digest, added, candidate, k)
    ensures forall k :: 0 <= k < |added| && LastUnder(digest, added, candidate, k) ==>
            digest(candidate) in Index(digest, added) && Index(digest, added)[digest(candidate)] == added[k]
  {
    if added != [] {
      var n := |added| - 1;
      var before := added[..n];
      IndexHoldsLast(digest, before, candidate);
      if digest(added[n].token) == digest(candidate) {
        assert LastUnder(digest, added, candidate, n);
      } else {
        forall k | 0 <= k < n ensures LastUnder(digest, before, candidate, k) <==> LastUnder(digest, added, candidate, k) {
          assert forall j :: 0 <= j < n ==> before[j] == added[j];
        }
      }
    }
  }

  lemma {:induction false} TokensHoldLast(added: seq<Entry>, token: string)
    ensures token in Tokens(added) <==> exists k :: 0 <= k < |added| && added[k].token == token
    ensures forall k :: 0 <= k < |added| && added[k].token == token && (forall j :: k < j < |added| ==> added[j].token != token) ==>
            token in Tokens(added) && Tokens(added)[token] == added[k].user
  {
    if added != [] {
      var n := |added| - 1;
      var before := added[..n];
      TokensHoldLast(before, token);
      assert forall j :: 0 <= j < n ==> before[j] == added[j];
    }
  }

  lemma LastExists<D(!new)>(digest: string -> D, added: seq<Entry>, candidate: string, k: nat) returns (last: nat)
    requires k < |added| && digest(added[k].token) == digest(candidate)
    ensures k <= last < |added| && LastUnder(digest, added, candidate, last)
  {
    last := k;
    var i := k + 1;
    while i < |added|
      invariant k <= last < i <= |added|
      invariant digest(added[last].token) == digest(candidate)
      invariant forall j :: last < j < i ==> digest(added[j].token) != digest(candidate)
    {
      if digest(added[i].token) == digest(candidate) { last := i; }
      i := i + 1;
    }
  }

  /** A hit is always the user stored for that very token, even when digests collide. */
  lemma {:induction false} HitIsStoredUser<D(!new)>(digest: string -> D, added: seq<Entry>, candidate: string)
    requires Find(digest, added, candidate).Some?
    ensures candidate in Tokens(added) && Find(digest, added, candidate) == Some(Tokens(added)[candidate])
  {
    IndexHoldsLast(digest, added, candidate);
    var k :| 0 <= k < |added| && LastUnder(digest, added, candidate, k);
    assert added[k].token == candidate;
    TokensHoldLast(added, candidate);
    forall j | k < j < |added| ensures added[j].token != candidate {
      assert digest(added[j].token) != digest(candidate);
    }
  }

  /** Index and map give the same answer for a candidate. */
  predicate Agree<D(==)>(digest: string -> D, added: seq<Entry>, candidate: string) {
    Find(digest, added, candidate) == if candidate in Tokens(added) then Some(Tokens(added)[candidate]) else None
  }

  /** They agree exactly when the candidate is not stored, or is the last stored token with its digest. */
  lemma AgreeExactly<D(!new)>(digest: string -> D, added: seq<Entry>, candidate: string)
    ensures Agree(digest, added, candidate) <==>
            candidate !in Tokens(added) ||
            exists k :: 0 <= k < |added| && LastUnder(digest, added, candidate, k) && added[k].token == candidate
  {
    if Find(digest, added, candidate).Some? { HitIsStoredUser(digest, added, candidate); }
    IndexHoldsLast(digest, added, candidate);
  }

  /** Without a collision between the candidate and a stored token, they agree. */
  lemma {:induction false} CollisionFreeAgree<D(!new)>(digest: string -> D, added: seq<Entry>, candidate: string)
    requires forall t :: t in Tokens(added) && digest(t) == digest(candidate) ==> t == candidate
    ensures Agree(digest, added, candidate)
  {
    AgreeExactly(digest, added, candidate);
    TokensHoldLast(added, candidate);
    if candidate in Tokens(added) {
      var i :| 0 <= i < |added| && added[i].token == candidate;
      var k := LastExists(digest, added, candidate, i);
      TokensHoldLast(added, added[k].token);
    }
  }

  /** A collision hides the token stored first, though the map still has it. */
  lemma CollisionHidesToken<D(!new)>(digest: string -> D, first: Entry, second: Entry)
    requires digest(first.token) == digest(second.token) && first.token != second.token
    ensures Find(digest, [first, second], first.token).None? && first.token in Tokens([first, second])
  {
    var added := [first, second];
    assert LastUnder(digest, added, first.token, 1);
    IndexHoldsLast(digest, added, first.token);
    TokensHoldLast(added, first.token);
    assert added[0].token == first.token;
  }

  /** Without collisions among the stored tokens, the users that can authenticate are those that can be looked up. */
  lemma SameUsers<D(!new)>(digest: string -> D, added: seq<Entry>, user: string)
    requires forall s, t :: s in Tokens(added) && t in Tokens(added) && digest(s) == digest(t) ==> s == t
    ensures user in Tokens(added).Values <==> exists token :: Find(digest, added, token) == Some(user)
  {
    if user in Tokens(added).Values {
      var token :| token in Tokens(added) && Tokens(added)[token] == user;
      CollisionFreeAgree(digest, added, token);
      assert Find(digest, added, token) == Some(user);
    }
    forall token | Find(digest, added, token) == Some(user) ensures user in Tokens(added).Values {
      HitIsStoredUser(digest, added, token);
    }
  }
}
