/**
  The consistent-hashing ring of src/server/ringview/ring_view.go: each
  node owns a few 64-bit tokens on the ring, and a key belongs to the owner
  of the first token at or after the key's hash, wrapping around to the
  smallest token. The read-write lock around every operation is not
  modelled; SHA-1 is a parameter.
 */
module RingViews {
  import opened Util
  import opened Sorting
  import opened Hashing

  /** `N_TOKENS_PER_NODE`. */
  const TokensPerNode := 3

  predicate TokenLe(a: uint64, b: uint64) { a <= b }

  lemma TokenLeTotal()
    ensures TotalOrder(TokenLe)
  {
  }

  /** Every element occurs at most once. */
  ghost predicate NoDuplicates<T(!new)>(s: seq<T>)
  {
    forall x :: multiset(s)[x] <= 1
  }

  /** The string hashed for attempt `counter` at the `i`-th token of `nodeId`: `nodeId#i#counter`. */
  function VirtualKey(nodeId: string, i: nat, counter: nat): string
  {
    nodeId + "#" + NatToDecimal(i) + "#" + NatToDecimal(counter)
  }

  /** The hashes of the first `bound` attempts at the `i`-th token of `nodeId`. */
  ghost function Attempts(sha1: string -> Digest, nodeId: string, i: nat, bound: nat): set<uint64>
  {
    set c | 0 <= c < bound :: HashKey(sha1, VirtualKey(nodeId, i, c))
  }

  /**
    `t` is the hash of the first attempt at the `i`-th token of `nodeId`
    that is not in `used`.
   */
  ghost predicate FirstUnused(sha1: string -> Digest, nodeId: string, i: nat, used: set<uint64>, t: uint64)
  {
    exists c: nat :: t == HashKey(sha1, VirtualKey(nodeId, i, c)) && t !in used
                     && forall c': nat :: c' < c ==> HashKey(sha1, VirtualKey(nodeId, i, c')) in used
  }

  /** Every token of `ts` owned by `nodeId`. */
  function Owned(ts: seq<uint64>, nodeId: string): (m: map<uint64, string>)
    ensures m.Keys == Elems(ts)
    ensures forall t :: t in m ==> m[t] == nodeId
  {
    map t | t in ts :: nodeId
  }

  /** The elements of a sequence, as a set. */
  function Elems<T(!new)>(s: seq<T>): (e: set<T>)
  {
    set x | x in s
  }

  /** Appending one more token of `nodeId` updates the ownership map at that token. */
  lemma OwnedSnoc(m: map<uint64, string>, ts: seq<uint64>, t: uint64, nodeId: string)
    ensures (m + Owned(ts, nodeId))[t := nodeId] == m + Owned(ts + [t], nodeId)
  {
    var l := (m + Owned(ts, nodeId))[t := nodeId];
    var r := m + Owned(ts + [t], nodeId);
    assert l.Keys == r.Keys;
  }

  /**
    `minted` are the tokens `JoinToRing` chose so far for `nodeId` on a ring
    whose map was `before`: each the first attempt at its index that is
    neither on the ring before nor chosen earlier.
   */
  ghost predicate Minted(sha1: string -> Digest, nodeId: string, before: map<uint64, string>, minted: seq<uint64>)
    decreases |minted|
  {
    minted == [] ||
    var k := |minted| - 1;
    Minted(sha1, nodeId, before, minted[..k]) && FirstUnused(sha1, nodeId, k, before.Keys + Elems(minted[..k]), minted[k])
  }

  /** One more token, the first free attempt for the next index, keeps `Minted`. */
  lemma MintedStep(sha1: string -> Digest, nodeId: string, before: map<uint64, string>, minted: seq<uint64>, h: uint64)
    requires Minted(sha1, nodeId, before, minted)
    requires FirstUnused(sha1, nodeId, |minted|, before.Keys + Elems(minted), h)
    ensures Minted(sha1, nodeId, before, minted + [h])
  {
    assert (minted + [h])[..|minted|] == minted;
  }

  /** A first unused attempt is not in the used set. */
  lemma UnusedIsFresh(sha1: string -> Digest, nodeId: string, i: nat, used: set<uint64>, t: uint64)
    requires FirstUnused(sha1, nodeId, i, used, t)
    ensures t !in used
  {
  }

  lemma NoDuplicatesSnoc<T(!new)>(s: seq<T>, x: T)
    requires NoDuplicates(s) && x !in s
    ensures NoDuplicates(s + [x])
  {
    assert multiset(s + [x]) == multiset(s) + multiset{x};
  }

  /** Each minted token was the first free attempt at its index. */
  lemma {:induction false} MintedFirstUnused(sha1: string -> Digest, nodeId: string, before: map<uint64, string>, minted: seq<uint64>)
    requires Minted(sha1, nodeId, before, minted)
    ensures forall j :: 0 <= j < |minted| ==>
              FirstUnused(sha1, nodeId, j, before.Keys + Elems(minted[..j]), minted[j])
  {
    if minted != [] {
      var k := |minted| - 1;
      var init := minted[..k];
      MintedFirstUnused(sha1, nodeId, before, init);
      assert minted == init + [minted[k]];
      EarlierUnused(sha1, nodeId, before.Keys, init, minted[k]);
    }
  }

  /** No minted token was on the ring before. */
  lemma MintedFresh(sha1: string -> Digest, nodeId: string, before: map<uint64, string>, minted: seq<uint64>)
    requires Minted(sha1, nodeId, before, minted)
    ensures forall j :: 0 <= j < |minted| ==> minted[j] !in before
  {
    MintedFirstUnused(sha1, nodeId, before, minted);
    forall j | 0 <= j < |minted|
      ensures minted[j] !in before
    {
      UnusedIsFresh(sha1, nodeId, j, before.Keys + Elems(minted[..j]), minted[j]);
    }
  }

  /** The minted tokens are pairwise distinct. */
  lemma {:induction false} MintedDistinct(sha1: string -> Digest, nodeId: string, before: map<uint64, string>, minted: seq<uint64>)
    requires Minted(sha1, nodeId, before, minted)
    ensures NoDuplicates(minted)
  {
    if minted != [] {
      var k := |minted| - 1;
      var init := minted[..k];
      MintedDistinct(sha1, nodeId, before, init);
      UnusedIsFresh(sha1, nodeId, k, before.Keys + Elems(init), minted[k]);
      assert minted == init + [minted[k]];
      NoDuplicatesSnoc(init, minted[k]);
    }
  }

  /**
    What `Minted` promises of every token: distinct, none on the ring
    before, and each the first free attempt at its index.
   */
  lemma MintedMeans(sha1: string -> Digest, nodeId: string, before: map<uint64, string>, minted: seq<uint64>)
    requires Minted(sha1, nodeId, before, minted)
    ensures NoDuplicates(minted)
    ensures forall j :: 0 <= j < |minted| ==> minted[j] !in before
    ensures forall j :: 0 <= j < |minted| ==>
              FirstUnused(sha1, nodeId, j, before.Keys + Elems(minted[..j]), minted[j])
  {
    MintedDistinct(sha1, nodeId, before, minted);
    MintedFresh(sha1, nodeId, before, minted);
    MintedFirstUnused(sha1, nodeId, before, minted);
  }

  /** Appending a token leaves the earlier tokens' first-unused facts as they were. */
  lemma EarlierUnused(sha1: string -> Digest, nodeId: string, used: set<uint64>, init: seq<uint64>, x: uint64)
    requires forall j :: 0 <= j < |init| ==> FirstUnused(sha1, nodeId, j, used + Elems(init[..j]), init[j])
    ensures forall j :: 0 <= j < |init| ==>
              FirstUnused(sha1, nodeId, j, used + Elems((init + [x])[..j]), (init + [x])[j])
  {
    forall j | 0 <= j < |init|
      ensures FirstUnused(sha1, nodeId, j, used + Elems((init + [x])[..j]), (init + [x])[j])
    {
      assert (init + [x])[..j] == init[..j];
    }
  }

  /** The tokens a node owns number at most the tokens it was given. */
  lemma {:induction false} ElemsCard<T(!new)>(s: seq<T>)
    ensures |Elems(s)| <= |s|
  {
    if s != [] {
      var init := s[..|s| - 1];
      ElemsCard(init);
      assert s == init + [s[|s| - 1]];
      assert Elems(s) == Elems(init) + {s[|s| - 1]};
    }
  }

  /** The keys of a map extended with a node's tokens, and how many there are at most. */
  lemma OwnedKeys(before: map<uint64, string>, ts: seq<uint64>, nodeId: string)
    ensures (before + Owned(ts, nodeId)).Keys == before.Keys + Elems(ts)
    ensures |(before + Owned(ts, nodeId)).Keys| <= |before.Keys| + |ts|
  {
    ElemsCard(ts);
    var m := before + Owned(ts, nodeId);
    assert m.Keys == before.Keys + Elems(ts);
  }

  /**
    The token a hash lands on: the smallest token at or after `h`, or the
    smallest token of all when every token is below `h`.
   */
  ghost predicate IsSuccessor(tokens: seq<uint64>, h: uint64, t: uint64)
  {
    && t in tokens
    && if exists u :: u in tokens && u >= h
       then t >= h && forall u :: u in tokens && u >= h ==> t <= u
       else forall u :: u in tokens ==> t <= u
  }

  /** A hash lands on exactly one token. */
  lemma SuccessorUnique(tokens: seq<uint64>, h: uint64, t1: uint64, t2: uint64)
    requires IsSuccessor(tokens, h, t1) && IsSuccessor(tokens, h, t2)
    ensures t1 == t2
  {
  }

  /**
    `sort.Search` over `[lo, hi)` with the predicate `tokens[i] >= h`: the
    least index whose token is at least `h`, or `hi` if there is none.
   */
  function Search(tokens: seq<uint64>, h: uint64, lo: nat, hi: nat): (i: nat)
    requires lo <= hi <= |tokens| && SortedBy(tokens, TokenLe)
    ensures lo <= i <= hi
    ensures forall j :: lo <= j < i ==> tokens[j] < h
    ensures forall j :: i <= j < hi ==> tokens[j] >= h
    decreases hi - lo
  {
    if lo == hi then lo
    else
      var mid := (lo + hi) / 2;
      if tokens[mid] >= h then Search(tokens, h, lo, mid) else Search(tokens, h, mid + 1, hi)
  }

  /** The index `Lookup` computes, wrapped to 0 past the end, holds the token `h` lands on. */
  lemma SearchLandsOnSuccessor(tokens: seq<uint64>, h: uint64)
    requires SortedBy(tokens, TokenLe) && |tokens| > 0
    ensures var next := Search(tokens, h, 0, |tokens|);
            IsSuccessor(tokens, h, tokens[if next == |tokens| then 0 else next])
  {
    var next := Search(tokens, h, 0, |tokens|);
    if next == |tokens| {
      forall u | u in tokens
        ensures tokens[0] <= u && u < h
      {
        var j :| 0 <= j < |tokens| && tokens[j] == u;
        assert TokenLe(tokens[0], tokens[j]);
      }
    } else {
      forall u | u in tokens && u >= h
        ensures tokens[next] <= u
      {
        var j :| 0 <= j < |tokens| && tokens[j] == u;
        if j >= next {
          assert TokenLe(tokens[next], tokens[j]);
        }
      }
    }
  }

  lemma {:induction false} SubsetCard<T>(a: set<T>, b: set<T>)
    requires a <= b
    ensures |a| <= |b|
    decreases |a|
  {
    if a != {} {
      var x :| x in a;
      SubsetCard(a - {x}, b - {x});
    }
  }

  /**
    Two `AddNode` messages for distinct new nodes, applied in either order,
    give the same token list and node list: both are sorted permutations of
    the same elements.
   */
  lemma AddNodesCommute(tokens: seq<uint64>, nodes: seq<string>, n1: string, t1: seq<uint64>, n2: string, t2: seq<uint64>)
    ensures Sort(Sort(tokens + t1, TokenLe) + t2, TokenLe) == Sort(Sort(tokens + t2, TokenLe) + t1, TokenLe)
    ensures Sort(Sort(nodes + [n1], StrLe) + [n2], StrLe) == Sort(Sort(nodes + [n2], StrLe) + [n1], StrLe)
  {
    TokenLeTotal();
    StrLeTotal();
    SortKeepsElements(tokens + t1, TokenLe);
    SortKeepsElements(tokens + t2, TokenLe);
    SortKeepsElements(Sort(tokens + t1, TokenLe) + t2, TokenLe);
    SortKeepsElements(Sort(tokens + t2, TokenLe) + t1, TokenLe);
    SortedUnique(Sort(Sort(tokens + t1, TokenLe) + t2, TokenLe), Sort(Sort(tokens + t2, TokenLe) + t1, TokenLe), TokenLe);
    SortKeepsElements(nodes + [n1], StrLe);
    SortKeepsElements(nodes + [n2], StrLe);
    SortKeepsElements(Sort(nodes + [n1], StrLe) + [n2], StrLe);
    SortKeepsElements(Sort(nodes + [n2], StrLe) + [n1], StrLe);
    SortedUnique(Sort(Sort(nodes + [n1], StrLe) + [n2], StrLe), Sort(Sort(nodes + [n2], StrLe) + [n1], StrLe), StrLe);
  }

  /**
    The token maps agree in both orders exactly when the two nodes are the
    same or share no token: `AddNode` overwrites owners without a check, so
    on a shared token the node added last wins.
   */
  lemma AddNodeOwnersCommuteIff(m: map<uint64, string>, n1: string, t1: seq<uint64>, n2: string, t2: seq<uint64>)
    ensures (m + Owned(t1, n1)) + Owned(t2, n2) == (m + Owned(t2, n2)) + Owned(t1, n1)
            <==> n1 == n2 || Elems(t1) !! Elems(t2)
  {
    var l := (m + Owned(t1, n1)) + Owned(t2, n2);
    var r := (m + Owned(t2, n2)) + Owned(t1, n1);
    if n1 == n2 || Elems(t1) !! Elems(t2) {
      assert l.Keys == r.Keys;
      assert forall t :: t in l ==> l[t] == r[t];
    } else {
      var t :| t in Elems(t1) && t in Elems(t2);
      assert l[t] == n2 && r[t] == n1;
    }
  }

  /**
    Minimal disruption: after `JoinToRing` adds `added`, none of them on the
    ring before, a hash whose new successor is an old token had that same
    successor before, with the same owner. Only keys that now land on one of
    the new tokens change owner.
   */
  lemma JoinMovesOnlyKeysOfNewTokens(tokens: seq<uint64>, m: map<uint64, string>, added: seq<uint64>, nodeId: string,
                                     h: uint64, t: uint64)
    requires forall u :: u in tokens <==> u in m
    requires forall i :: 0 <= i < |added| ==> added[i] !in m
    requires IsSuccessor(Sort(tokens + added, TokenLe), h, t) && t !in added
    ensures IsSuccessor(tokens, h, t)
    ensures t in m && (m + Owned(added, nodeId))[t] == m[t]
  {
    TokenLeTotal();
    SortKeepsElements(tokens + added, TokenLe);
    var all := Sort(tokens + added, TokenLe);
    assert forall u :: u in all <==> u in tokens || u in added;
    assert t in tokens;
  }

  class RingView {
    const nTokens: nat
    var tokens: seq<uint64>
    var tokenToNode: map<uint64, string>
    var nodes: seq<string>

    /**
      The ring's invariant: tokens ascending, nodes ascending and each
      listed once, the token list and the map's keys the same tokens, and
      every owner a listed node.
     */
    ghost predicate Valid()
      reads this
    {
      && SortedBy(tokens, TokenLe)
      && SortedBy(nodes, StrLe) && NoDuplicates(nodes)
      && (forall t :: t in tokens <==> t in tokenToNode)
      && (forall t :: t in tokenToNode ==> tokenToNode[t] in nodes)
    }

    /** `New()`: an empty ring with three tokens per node. */
    constructor ()
      ensures Valid() && nTokens == TokensPerNode
      ensures tokens == [] && tokenToNode == map[] && nodes == []
    {
      nTokens := TokensPerNode;
      tokens := [];
      tokenToNode := map[];
      nodes := [];
    }

    /** The scan over `nodes` that both `JoinToRing` and `AddNode` start with. */
    method Known(nodeId: string) returns (found: bool)
      ensures found <==> nodeId in nodes
    {
      var k := 0;
      while k < |nodes|
        invariant 0 <= k <= |nodes|
        invariant nodeId !in nodes[..k]
      {
        if nodes[k] == nodeId {
          return true;
        }
        k := k + 1;
      }
      return false;
    }

    /**
      `JoinToRing(nodeId)`: a listed node changes nothing and gets no
      tokens. A new node gets `nTokens` tokens; the `i`-th is the hash of
      the first attempt `nodeId#i#counter` not yet on the ring, so the
      tokens are distinct and take no other node's token. The node and
      its tokens are added and both lists re-sorted.

      The source retries without limit; here `bound` attempts per token are
      known to give more distinct hashes than the ring can hold tokens.
     */
    method JoinToRing(sha1: string -> Digest, nodeId: string, ghost bound: nat) returns (newTokens: seq<uint64>)
      requires Valid()
      requires nodeId !in nodes ==>
                 forall i :: 0 <= i < nTokens ==> |Attempts(sha1, nodeId, i, bound)| > |tokenToNode.Keys| + nTokens
      modifies this
      ensures Valid()
      ensures nodeId in old(nodes) ==>
                newTokens == [] && tokens == old(tokens) && tokenToNode == old(tokenToNode) && nodes == old(nodes)
      ensures nodeId !in old(nodes) ==>
                && |newTokens| == nTokens && NoDuplicates(newTokens)
                && (forall i :: 0 <= i < |newTokens| ==> newTokens[i] !in old(tokenToNode))
                && (forall i :: 0 <= i < |newTokens| ==>
                      FirstUnused(sha1, nodeId, i, old(tokenToNode).Keys + Elems(newTokens[..i]), newTokens[i]))
                && tokenToNode == old(tokenToNode) + Owned(newTokens, nodeId)
                && tokens == Sort(old(tokens) + newTokens, TokenLe)
                && nodes == Sort(old(nodes) + [nodeId], StrLe)
    {
      var known := Known(nodeId);
      if known {
        return [];
      }
      var owner;
      newTokens, owner := MintTokens(sha1, tokenToNode, nodeId, nTokens, bound);
      MintedMeans(sha1, nodeId, tokenToNode, newTokens);
      ResortedValid(tokens, tokenToNode, nodes, newTokens, nodeId);
      tokenToNode := owner;
      nodes := Sort(nodes + [nodeId], StrLe);
      tokens := Sort(tokens + newTokens, TokenLe);
    }

    /** The minting loop of `JoinToRing`: `count` fresh tokens for `nodeId`, each bound to it as it is chosen. */
    static method MintTokens(sha1: string -> Digest, before: map<uint64, string>, nodeId: string, count: nat, ghost bound: nat)
      returns (newTokens: seq<uint64>, owner: map<uint64, string>)
      requires forall i :: 0 <= i < count ==> |Attempts(sha1, nodeId, i, bound)| > |before.Keys| + count
      ensures |newTokens| == count && Minted(sha1, nodeId, before, newTokens)
      ensures owner == before + Owned(newTokens, nodeId)
    {
      owner := before;
      newTokens := [];
      var i := 0;
      while i < count
        invariant 0 <= i <= count && |newTokens| == i
        invariant owner == before + Owned(newTokens, nodeId)
        invariant Minted(sha1, nodeId, before, newTokens)
      {
        OwnedKeys(before, newTokens, nodeId);
        var h := FreshHash(sha1, owner, nodeId, i, bound);
        MintedStep(sha1, nodeId, before, newTokens, h);
        OwnedSnoc(before, newTokens, h, nodeId);
        newTokens := newTokens + [h];
        owner := owner[h := nodeId];
        i := i + 1;
      }
    }

    /**
      The retry loop of `JoinToRing` for its `i`-th token: the hash of the
      first attempt `nodeId#i#counter` not yet on the ring. It stops within
      `bound` attempts when those give more distinct hashes than the ring
      holds tokens.
     */
    static method FreshHash(sha1: string -> Digest, tokenToNode: map<uint64, string>, nodeId: string, i: nat, ghost bound: nat)
      returns (h: uint64)
      requires |Attempts(sha1, nodeId, i, bound)| > |tokenToNode.Keys|
      ensures FirstUnused(sha1, nodeId, i, tokenToNode.Keys, h) && h !in tokenToNode
    {
      var counter := 0;
      h := HashKey(sha1, VirtualKey(nodeId, i, counter));
      while h in tokenToNode
        invariant 0 <= counter < bound
        invariant h == HashKey(sha1, VirtualKey(nodeId, i, counter))
        invariant forall c :: 0 <= c < counter ==> HashKey(sha1, VirtualKey(nodeId, i, c)) in tokenToNode
        decreases bound - counter
      {
        if counter + 1 == bound {
          SubsetCard(Attempts(sha1, nodeId, i, bound), tokenToNode.Keys);
          assert false;
        }
        counter := counter + 1;
        h := HashKey(sha1, VirtualKey(nodeId, i, counter));
      }
    }

    /** The invariant after `nodeId` and `added` join a valid ring that does not list `nodeId`. */
    static lemma ResortedValid(tokens: seq<uint64>, tokenToNode: map<uint64, string>, nodes: seq<string>,
                               added: seq<uint64>, nodeId: string)
      requires SortedBy(nodes, StrLe) && NoDuplicates(nodes) && nodeId !in nodes
      requires forall t :: t in tokens <==> t in tokenToNode
      requires forall t :: t in tokenToNode ==> tokenToNode[t] in nodes
      ensures var ts := Sort(tokens + added, TokenLe);
              var ns := Sort(nodes + [nodeId], StrLe);
              var m := tokenToNode + Owned(added, nodeId);
              && SortedBy(ts, TokenLe)
              && SortedBy(ns, StrLe) && NoDuplicates(ns)
              && (forall t :: t in ts <==> t in m)
              && (forall t :: t in m ==> m[t] in ns)
    {
      TokenLeTotal();
      StrLeTotal();
      SortKeepsElements(tokens + added, TokenLe);
      SortKeepsElements(nodes + [nodeId], StrLe);
      assert multiset(nodes + [nodeId]) == multiset(nodes) + multiset{nodeId};
    }

    /**
      `AddNode(nodeId, tokens)`: a listed node changes nothing. Otherwise
      every given token is mapped to `nodeId`, with no check for tokens
      already owned, and the node and tokens are added and re-sorted.
     */
    method AddNode(nodeId: string, newTokens: seq<uint64>)
      requires Valid()
      modifies this
      ensures Valid()
      ensures nodeId in old(nodes) ==> tokens == old(tokens) && tokenToNode == old(tokenToNode) && nodes == old(nodes)
      ensures nodeId !in old(nodes) ==>
                && tokenToNode == old(tokenToNode) + Owned(newTokens, nodeId)
                && tokens == Sort(old(tokens) + newTokens, TokenLe)
                && nodes == Sort(old(nodes) + [nodeId], StrLe)
    {
      var known := Known(nodeId);
      if known {
        return;
      }
      var k := 0;
      while k < |newTokens|
        invariant 0 <= k <= |newTokens|
        invariant nodes == old(nodes)
        invariant tokens == old(tokens) + newTokens[..k]
        invariant tokenToNode == old(tokenToNode) + Owned(newTokens[..k], nodeId)
      {
        assert newTokens[..k + 1] == newTokens[..k] + [newTokens[k]];
        OwnedSnoc(old(tokenToNode), newTokens[..k], newTokens[k], nodeId);
        tokenToNode := tokenToNode[newTokens[k] := nodeId];
        tokens := tokens + [newTokens[k]];
        k := k + 1;
      }
      assert newTokens[..k] == newTokens;
      nodes := Sort(nodes + [nodeId], StrLe);
      tokens := Sort(tokens, TokenLe);
      ResortedValid(old(tokens), old(tokenToNode), old(nodes), newTokens, nodeId);
    }

    /**
      `Lookup(key)`: nothing on an empty ring; otherwise the owner of the
      token the key's hash lands on.
     */
    function Lookup(sha1: string -> Digest, key: string): (r: (string, bool))
      requires Valid()
      reads this
      ensures r.1 <==> |tokens| > 0
      ensures !r.1 ==> r.0 == ""
      ensures r.1 ==> exists t :: IsSuccessor(tokens, HashKey(sha1, key), t) && t in tokenToNode && r.0 == tokenToNode[t]
    {
      if |tokens| == 0 then ("", false)
      else
        var h := HashKey(sha1, key);
        var next := Search(tokens, h, 0, |tokens|);
        var i := if next == |tokens| then 0 else next;
        SearchLandsOnSuccessor(tokens, h);
        (tokenToNode[tokens[i]], true)
    }

    /** `GetTokenToNode()`: a copy of the token map, built entry by entry. */
    method GetTokenToNode() returns (copy: map<uint64, string>)
      ensures copy == tokenToNode
    {
      copy := map[];
      var todo := tokenToNode.Keys;
      while todo != {}
        invariant todo <= tokenToNode.Keys
        invariant copy == map t | t in tokenToNode && t !in todo :: tokenToNode[t]
        decreases todo
      {
        var t :| t in todo;
        copy := copy[t := tokenToNode[t]];
        todo := todo - {t};
      }
    }
  }

  /**
    `NewFromTokenMap(tokenToNode)`: a ring holding the given map, with its
    tokens the map's keys ascending and its nodes the map's distinct
    owners ascending.
   */
  method NewFromTokenMap(tokenToNode: map<uint64, string>) returns (r: RingView)
    ensures fresh(r) && r.Valid() && r.nTokens == TokensPerNode
    ensures r.tokenToNode == tokenToNode
    ensures NoDuplicates(r.tokens) && (forall t :: t in r.tokens <==> t in tokenToNode)
    ensures forall n :: n in r.nodes <==> n in tokenToNode.Values
  {
    var tokens, owned, owners := CollectTokens(tokenToNode);
    var nodes := ListOf(owners);
    TokenLeTotal();
    StrLeTotal();
    SortKeepsElements(tokens, TokenLe);
    SortKeepsElements(nodes, StrLe);
    r := new RingView();
    r.tokens := Sort(tokens, TokenLe);
    r.nodes := Sort(nodes, StrLe);
    r.tokenToNode := owned;
  }

  /**
    The first loop of `NewFromTokenMap`: every token of the map, once, with
    the map rebuilt entry by entry and the set of its owners.
   */
  method CollectTokens(tokenToNode: map<uint64, string>)
    returns (tokens: seq<uint64>, owned: map<uint64, string>, owners: set<string>)
    ensures owned == tokenToNode
    ensures NoDuplicates(tokens) && (forall t :: t in tokens <==> t in tokenToNode)
    ensures forall n :: n in owners <==> n in tokenToNode.Values
  {
    tokens := [];
    owned := map[];
    owners := {};
    var todo := tokenToNode.Keys;
    while todo != {}
      invariant todo <= tokenToNode.Keys
      invariant owned.Keys == tokenToNode.Keys - todo
      invariant forall t :: t in owned ==> owned[t] == tokenToNode[t]
      invariant NoDuplicates(tokens) && forall t :: t in tokens <==> t in owned
      invariant forall n :: n in owners <==> n in owned.Values
      decreases todo
    {
      var t :| t in todo;
      NoDuplicatesSnoc(tokens, t);
      tokens := tokens + [t];
      owned := owned[t := tokenToNode[t]];
      owners := owners + {tokenToNode[t]};
      todo := todo - {t};
    }
    assert owned == tokenToNode;
  }

  /** The second loop of `NewFromTokenMap`: the members of a set, each once, in any order. */
  method ListOf(members: set<string>) returns (list: seq<string>)
    ensures NoDuplicates(list) && forall n :: n in list <==> n in members
  {
    list := [];
    var pending := members;
    while pending != {}
      invariant pending <= members
      invariant NoDuplicates(list) && forall n :: n in list <==> n in members && n !in pending
      decreases pending
    {
      var n :| n in pending;
      NoDuplicatesSnoc(list, n);
      list := list + [n];
      pending := pending - {n};
    }
  }
}
