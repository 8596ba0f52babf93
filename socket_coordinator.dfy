/**
  The client's view of the ring (src/client/lib/coordination/socket-coordinator.ts):
  the ring it fakes from its seed ids until the first ring-view response,
  the rebuild from such a response, the WebSocket URL of a node id, and
  the preference list of a shopping list: the distinct owners met walking
  the ring from the first token at or above the list's hash.
 */
module SocketCoordinators {
  import opened Util
  import opened Sorting
  import opened Hashing
  import RingViews

  predicate Distinct<T(==)>(s: seq<T>)
  {
    forall i, j :: 0 <= i < j < |s| ==> s[i] != s[j]
  }

  // ---------------------------------------------------------------------
  // The seed ring
  // ---------------------------------------------------------------------

  /** Token of seed `index` of `n`: `(index + 1) * space / (n + 1)`, rounded down. */
  function SeedToken(index: nat, n: nat, space: int): int
  {
    ((index + 1) * space) / (n + 1)
  }

  /** The tokens of the first `i` seeds, in seed order. */
  function SeedTokens(n: nat, space: int, i: nat): seq<int>
  {
    if i == 0 then [] else SeedTokens(n, space, i - 1) + [SeedToken(i - 1, n, space)]
  }

  /** The seed ring: each seed written under its token, a later seed overwriting an equal token. */
  function SeedRing(ids: seq<string>, n: nat, space: int): map<int, string>
  {
    if ids == [] then map[]
    else SeedRing(ids[..|ids| - 1], n, space)[SeedToken(|ids| - 1, n, space) := ids[|ids| - 1]]
  }

  /** Seeding one more id writes it under its own token. */
  lemma SeedRingStep(ids: seq<string>, index: nat, n: nat, space: int)
    requires index < |ids|
    ensures SeedRing(ids[..index + 1], n, space) == SeedRing(ids[..index], n, space)[SeedToken(index, n, space) := ids[index]]
  {
    assert ids[..index + 1][..index] == ids[..index];
  }

  /** Pushing the next seed token and sorting keeps the list sorted and holding exactly the tokens so far. */
  lemma SeedTokensStep(tokens: seq<int>, index: nat, n: nat, space: int)
    requires multiset(tokens) == multiset(SeedTokens(n, space, index))
    ensures var next := Sort(tokens + [SeedToken(index, n, space)], IntLe);
            SortedBy(next, IntLe) && multiset(next) == multiset(SeedTokens(n, space, index + 1))
  {
    IntLeTotal();
    SortCorrect(tokens + [SeedToken(index, n, space)], IntLe);
  }

  lemma DivStep(a: int, b: int, m: int)
    requires m > 0 && b >= a + m
    ensures b / m >= a / m + 1
  {
    var q, q' := a / m, b / m;
    assert a == q * m + a % m && b == q' * m + b % m;
    if q' <= q {
      MulDistrib(q - q', q', m);
      MulAtLeast(q - q' + 1, m);
      MulDistrib(q - q' + 1, q', m);
      assert false;
    }
  }

  /** With a hash space of at least `n + 1`, the seed tokens strictly increase. */
  lemma SeedTokensIncrease(i: nat, j: nat, n: nat, space: int)
    requires i < j && space >= n + 1
    ensures SeedToken(i, n, space) < SeedToken(j, n, space)
  {
    MulDistrib(j - i, i + 1, space);
    MulAtLeast(j - i, space);
    DivStep((i + 1) * space, (j + 1) * space, n + 1);
  }

  /** The seed ring holds every seed under its own token when the tokens are distinct. */
  lemma {:induction false} SeedRingOwners(ids: seq<string>, n: nat, space: int)
    requires |ids| <= n && space >= n + 1
    ensures forall k :: 0 <= k < |ids| ==>
              SeedToken(k, n, space) in SeedRing(ids, n, space) && SeedRing(ids, n, space)[SeedToken(k, n, space)] == ids[k]
  {
    if ids != [] {
      var last := |ids| - 1;
      SeedRingOwners(ids[..last], n, space);
      forall k | 0 <= k < last
        ensures SeedToken(k, n, space) != SeedToken(last, n, space)
      {
        SeedTokensIncrease(k, last, n, space);
      }
    }
  }

  // ---------------------------------------------------------------------
  // Node URLs
  // ---------------------------------------------------------------------

  /** Where `slice` puts a boundary `k` in a string of length `len`: counted from the end when negative, clamped. */
  function SliceIndex(len: nat, k: int): (r: nat)
    ensures r <= len
    ensures 0 <= k <= len ==> r == k
    ensures k < 0 ==> r == if len + k < 0 then 0 else len + k
  {
    if k < 0 then (if len + k < 0 then 0 else len + k) else if k > len then len else k
  }

  /**
    JavaScript's `Number(s)` on the strings read here: the empty string is
    0, an optional sign followed by decimal digits is that integer, and
    anything else is NaN (`None`).
   */
  function JsNumber(s: string): (r: Option<int>)
    ensures s == [] ==> r == Some(0)
    ensures (forall i :: 0 <= i < |s| ==> IsDigit(s[i])) ==> r == Some(DigitsValue(s))
  {
    if s == [] then Some(0)
    else
      var neg := s[0] == '-';
      var digits := if s[0] == '-' || s[0] == '+' then s[1..] else s;
      if digits != [] && DigitPrefixLength(digits) == |digits| then
        var v: int := DigitsValue(digits);
        Some(if neg then -v else v)
      else None
  }

  /** `${port}` for the port number plus 3000; NaN stays NaN. */
  function PortText(port: Option<int>): string
  {
    match port
    case None => "NaN"
    case Some(p) => IntToDecimal(p + 3000)
  }

  /** `idToUrl(id)`: host before the first colon, port after it plus 3000, as `ws://host:port/ws`. */
  function IdToUrl(id: string): (u: string)
    ensures |u| >= 9 && u[..5] == "ws://" && u[|u| - 3..] == "/ws"
    ensures IndexOf(id, ':') >= 0 ==>
      |u| > 5 + IndexOf(id, ':') && u[5..5 + IndexOf(id, ':')] == id[..IndexOf(id, ':')] && u[5 + IndexOf(id, ':')] == ':'
  {
    var colon := IndexOf(id, ':');
    var address := id[..SliceIndex(|id|, colon)];
    var port := JsNumber(id[SliceIndex(|id|, colon + 1)..]);
    "ws://" + address + ":" + PortText(port) + "/ws"
  }

  /** A `host:port` id becomes the URL of the port 3000 above. */
  lemma IdToUrlHostPort(host: string, port: nat)
    requires ':' !in host
    ensures IdToUrl(host + ":" + NatToDecimal(port)) == "ws://" + host + ":" + NatToDecimal(port + 3000) + "/ws"
  {
    var digits := NatToDecimal(port);
    var id := host + ":" + digits;
    IndexOfSplit(host, ':', digits);
    assert id[..|host|] == host && id[|host| + 1..] == digits;
    AllDigitsPrefix(digits);
    DigitsValueOfDecimal(port);
  }

  /** An id without a colon loses its last character as host, and the whole id is read as the port. */
  lemma IdToUrlWithoutColon(id: string)
    requires ':' !in id
    ensures IdToUrl(id) == "ws://" + id[..if |id| == 0 then 0 else |id| - 1] + ":" + PortText(JsNumber(id)) + "/ws"
  {
    assert IndexOf(id, ':') == -1;
  }

  // ---------------------------------------------------------------------
  // The preference list
  // ---------------------------------------------------------------------

  /** First index at or after `from` whose token is at least `h`; 0 when there is none. */
  function FirstFrom(tokens: seq<int>, h: int, from: nat): (r: nat)
    requires from <= |tokens|
    ensures || (r == 0 && forall j :: from <= j < |tokens| ==> tokens[j] < h)
            || (from <= r < |tokens| && tokens[r] >= h && forall j :: from <= j < r ==> tokens[j] < h)
    decreases |tokens| - from
  {
    if from == |tokens| then 0 else if tokens[from] >= h then from else FirstFrom(tokens, h, from + 1)
  }

  /** `startIdx`: the first index whose token is at least the hash, or 0 when there is none. */
  function StartIndex(tokens: seq<int>, h: int): nat
  {
    FirstFrom(tokens, h, 0)
  }

  /** The node owning the token met at step `k` of the walk from `start`, or "" for a token nobody owns. */
  function OwnerAt(tokens: seq<int>, ring: map<int, string>, start: nat, k: nat): string
    requires |tokens| > 0
  {
    var t := tokens[(start + k) % |tokens|];
    if t in ring then ring[t] else ""
  }

  /** The owners met in the first `i` steps of the walk. */
  function Walk(tokens: seq<int>, ring: map<int, string>, start: nat, i: nat): (w: seq<string>)
    requires i == 0 || |tokens| > 0
    ensures |w| == i
    ensures forall k :: 0 <= k < i ==> w[k] == OwnerAt(tokens, ring, start, k)
  {
    if i == 0 then [] else Walk(tokens, ring, start, i - 1) + [OwnerAt(tokens, ring, start, i - 1)]
  }

  /** The non-empty entries of `s`, each kept at its first appearance. */
  function DistinctNonEmpty(s: seq<string>): seq<string>
  {
    if s == [] then []
    else
      var prefix := DistinctNonEmpty(s[..|s| - 1]);
      var x := s[|s| - 1];
      if x != "" && x !in prefix then prefix + [x] else prefix
  }

  /** The first `n` entries, or all when there are fewer; none when `n` is not positive. */
  function Take<T>(s: seq<T>, n: int): (r: seq<T>)
    ensures n <= 0 ==> r == []
    ensures n >= |s| ==> r == s
    ensures 0 <= n < |s| ==> r == s[..n]
  {
    if n <= 0 then [] else if n >= |s| then s else s[..n]
  }

  /** What `getResponsibleNodes` returns for a list whose hash is `h`. */
  function PreferenceList(tokens: seq<int>, ring: map<int, string>, h: int, size: int): seq<string>
  {
    Take(DistinctNonEmpty(Walk(tokens, ring, StartIndex(tokens, h), |tokens|)), size)
  }

  /** One more step of the walk adds its owner when it is new and not empty. */
  lemma DistinctNonEmptySnoc(s: seq<string>, x: string)
    ensures DistinctNonEmpty(s + [x]) == if x != "" && x !in DistinctNonEmpty(s) then DistinctNonEmpty(s) + [x] else DistinctNonEmpty(s)
  {
    assert (s + [x])[..|s|] == s;
  }

  /** The first `i` steps of a longer walk are the walk of `i` steps. */
  lemma WalkPrefix(tokens: seq<int>, ring: map<int, string>, start: nat, i: nat, n: nat)
    requires i <= n && (n == 0 || |tokens| > 0)
    ensures Walk(tokens, ring, start, n)[..i] == Walk(tokens, ring, start, i)
  {
  }

  /** Where the walk loop stops, it holds the first `size` distinct owners of the whole walk. */
  lemma TakeWalk(w: seq<string>, size: int, i: nat)
    requires i <= |w|
    requires var nodes := DistinctNonEmpty(w[..i]);
             && |nodes| <= (if size < 0 then 0 else size)
             && (i < |w| ==> |nodes| >= size)
    ensures DistinctNonEmpty(w[..i]) == Take(DistinctNonEmpty(w), size)
  {
    var all := DistinctNonEmpty(w);
    var nodes := DistinctNonEmpty(w[..i]);
    DistinctNonEmptyPrefix(w, i);
    if size <= 0 {
      assert nodes == [];
    } else if i == |w| {
      assert w[..i] == w;
    } else {
      assert all[..size] == nodes;
    }
  }

  /** The distinct non-empty entries are exactly those of `s`, without repeats. */
  lemma {:induction false} DistinctNonEmptyMeans(s: seq<string>)
    ensures Distinct(DistinctNonEmpty(s)) && "" !in DistinctNonEmpty(s)
    ensures forall x :: x in DistinctNonEmpty(s) <==> x in s && x != ""
  {
    if s != [] {
      var init := s[..|s| - 1];
      DistinctNonEmptyMeans(init);
      assert s == init + [s[|s| - 1]];
    }
  }

  /** Walking further only appends: the owners collected so far stay a prefix. */
  lemma {:induction false} DistinctNonEmptyPrefix(s: seq<string>, i: nat)
    requires i <= |s|
    ensures DistinctNonEmpty(s[..i]) <= DistinctNonEmpty(s)
    ensures |DistinctNonEmpty(s)| <= |DistinctNonEmpty(s[..i])| + (|s| - i)
    decreases |s| - i
  {
    if i < |s| {
      DistinctNonEmptyPrefix(s, i + 1);
      assert s[..i + 1][..i] == s[..i];
    } else {
      assert s[..i] == s;
    }
  }

  /** Every token's index is met by the walk of length `|tokens|` from an index of `tokens`. */
  lemma WalkMeetsEveryToken(tokens: seq<int>, ring: map<int, string>, start: nat, j: nat)
    requires start < |tokens| && j < |tokens|
    ensures (if tokens[j] in ring then ring[tokens[j]] else "") in Walk(tokens, ring, start, |tokens|)
  {
    var n := |tokens|;
    var k := if j >= start then j - start else j - start + n;
    DivModUnique(start + k, n, if j >= start then 0 else 1, j);
    assert Walk(tokens, ring, start, n)[k] == OwnerAt(tokens, ring, start, k);
  }

  /** Every non-empty id met by the walk owns one of the tokens. */
  lemma WalkEntryOwned(tokens: seq<int>, ring: map<int, string>, start: nat, x: string)
    requires x in Walk(tokens, ring, start, |tokens|) && x != ""
    ensures exists t :: t in tokens && t in ring && ring[t] == x
  {
    var w := Walk(tokens, ring, start, |tokens|);
    var k :| 0 <= k < |w| && w[k] == x;
    var t := tokens[(start + k) % |tokens|];
    assert t in tokens && t in ring && ring[t] == x;
  }

  /** The preference list holds at most `size` ids, no repeats and no empty id, each the owner of a token. */
  lemma PreferenceListOwners(tokens: seq<int>, ring: map<int, string>, h: int, size: int)
    ensures var r := PreferenceList(tokens, ring, h, size);
            && |r| <= (if size < 0 then 0 else size)
            && Distinct(r) && "" !in r
            && (forall x :: x in r ==> exists t :: t in tokens && t in ring && ring[t] == x)
  {
    var start := StartIndex(tokens, h);
    var w := Walk(tokens, ring, start, |tokens|);
    var all := DistinctNonEmpty(w);
    var r := PreferenceList(tokens, ring, h, size);
    DistinctNonEmptyMeans(w);
    assert r <= all;
    forall x | x in r
      ensures exists t :: t in tokens && t in ring && ring[t] == x
    {
      assert x in all;
      WalkEntryOwned(tokens, ring, start, x);
    }
  }

  /** When no more than `size` nodes own tokens, the preference list names every one of them. */
  lemma PreferenceListComplete(tokens: seq<int>, ring: map<int, string>, h: int, size: int)
    ensures var r := PreferenceList(tokens, ring, h, size);
            var owners := set t | t in tokens && t in ring && ring[t] != "" :: ring[t];
            |owners| <= size ==> forall x :: x in owners ==> x in r
  {
    var start := StartIndex(tokens, h);
    var w := Walk(tokens, ring, start, |tokens|);
    var all := DistinctNonEmpty(w);
    var owners := set t | t in tokens && t in ring && ring[t] != "" :: ring[t];
    if |owners| <= size {
      DistinctNonEmptyMeans(w);
      forall x | x in owners
        ensures x in all
      {
        var t :| t in tokens && t in ring && ring[t] != "" && ring[t] == x;
        var j :| 0 <= j < |tokens| && tokens[j] == t;
        WalkMeetsEveryToken(tokens, ring, start, j);
      }
      forall x | x in all
        ensures x in owners
      {
        WalkEntryOwned(tokens, ring, start, x);
      }
      OwnersCover(all, owners);
    }
  }

  /** The walk's first step meets the token it starts at. */
  lemma WalkHead(tokens: seq<int>, ring: map<int, string>, start: nat)
    requires start < |tokens|
    ensures Walk(tokens, ring, start, |tokens|)[..1] == [if tokens[start] in ring then ring[tokens[start]] else ""]
  {
    WalkPrefix(tokens, ring, start, 1, |tokens|);
    DivModUnique(start + 0, |tokens|, 0, start);
  }

  /** When the token the walk starts at has an owner, that owner heads the preference list. */
  lemma PreferenceListStartsAtOwner(tokens: seq<int>, ring: map<int, string>, h: int, size: int)
    ensures var r := PreferenceList(tokens, ring, h, size);
            var start := StartIndex(tokens, h);
            size >= 1 && start < |tokens| && tokens[start] in ring && ring[tokens[start]] != "" ==>
              |r| > 0 && r[0] == ring[tokens[start]]
  {
    var start := StartIndex(tokens, h);
    if size >= 1 && start < |tokens| && tokens[start] in ring && ring[tokens[start]] != "" {
      var w := Walk(tokens, ring, start, |tokens|);
      var x := ring[tokens[start]];
      WalkHead(tokens, ring, start);
      DistinctNonEmptyPrefix(w, 1);
      assert DistinctNonEmpty([x]) == [x] by {
        assert [x][..0] == [];
      }
      assert [x] <= DistinctNonEmpty(w);
    }
  }

  /** A list without repeats drawn from `owners` and holding all of them has no more entries than `owners`. */
  lemma OwnersCover(all: seq<string>, owners: set<string>)
    requires Distinct(all) && forall x :: x in all ==> x in owners
    requires forall x :: x in owners ==> x in all
    ensures |all| == |owners|
  {
    var elems := set x | x in all;
    assert elems == owners;
    DistinctCard(all);
  }

  lemma {:induction false} DistinctCard(s: seq<string>)
    requires Distinct(s)
    ensures |set x | x in s| == |s|
  {
    if s != [] {
      var init := s[..|s| - 1];
      DistinctCard(init);
      assert (set x | x in s) == (set x | x in init) + {s[|s| - 1]};
    }
  }

  // ---------------------------------------------------------------------
  // The hash mismatch
  // ---------------------------------------------------------------------

  /**
    As written: the client reduces the hash modulo the hash space. When
    every token lies at or above the space, as the server's 64-bit tokens
    all but surely do, every list starts its walk at index 0.
   */
  lemma ReducedHashStartsAtZero(sha1: string -> Digest, key: string, space: int, tokens: seq<int>)
    requires space > 0 && forall j :: 0 <= j < |tokens| ==> tokens[j] >= space
    ensures StartIndex(tokens, ClientHashKey(sha1, key, space).value) == 0
  {
  }

  /** Corrected: the walk starts at the server's `Lookup` token when it uses the server's own hash. */
  function ServerStart(sha1: string -> Digest, key: string, tokens: seq<uint64>): nat
  {
    StartIndex(tokens, HashKey(sha1, key))
  }

  /** With the server's hash the walk starts at the successor token, the one `Lookup` answers with. */
  lemma ServerStartIsSuccessor(sha1: string -> Digest, key: string, tokens: seq<uint64>)
    requires SortedBy(tokens, RingViews.TokenLe) && |tokens| > 0
    ensures ServerStart(sha1, key, tokens) < |tokens|
    ensures RingViews.IsSuccessor(tokens, HashKey(sha1, key), tokens[ServerStart(sha1, key, tokens)])
  {
    var h := HashKey(sha1, key);
    var i := ServerStart(sha1, key, tokens);
    if exists u :: u in tokens && u >= h {
      forall u | u in tokens && u >= h
        ensures tokens[i] <= u
      {
        var j :| 0 <= j < |tokens| && tokens[j] == u;
        assert i <= j;
      }
    } else {
      assert tokens[i] in tokens;
      forall u | u in tokens
        ensures tokens[0] <= u
      {
        var j :| 0 <= j < |tokens| && tokens[j] == u;
        if j > 0 {
          assert RingViews.TokenLe(tokens[0], tokens[j]);
        }
      }
    }
  }

  // ---------------------------------------------------------------------
  // The coordinator
  // ---------------------------------------------------------------------

  /** `knownTokens` after a rebuild: the ring's tokens, ascending, each once. */
  ghost predicate TokensOf(tokens: seq<int>, ring: map<int, string>)
  {
    SortedBy(tokens, IntLe) && RingViews.NoDuplicates(tokens) && forall t :: t in tokens <==> t in ring
  }

  /** There is one such list. */
  lemma TokensOfUnique(a: seq<int>, b: seq<int>, ring: map<int, string>)
    requires TokensOf(a, ring) && TokensOf(b, ring)
    ensures a == b
  {
    forall t
      ensures multiset(a)[t] == multiset(b)[t]
    {
      assert t in a <==> t in multiset(a);
      assert t in b <==> t in multiset(b);
    }
    assert multiset(a) == multiset(b);
    IntLeTotal();
    SortedUnique(a, b, IntLe);
  }

  lemma SomeKey(s: set<int>)
    requires s != {}
    ensures exists t :: t in s
  {
    if forall t :: t !in s {
      assert false;
    }
  }

  /** `Object.keys` of the ring, each once. */
  method KeysOf(ring: map<int, string>) returns (keys: seq<int>)
    ensures RingViews.NoDuplicates(keys) && forall t :: t in keys <==> t in ring
  {
    keys := [];
    var pending := ring.Keys;
    while pending != {}
      invariant pending <= ring.Keys
      invariant RingViews.NoDuplicates(keys) && forall t :: t in keys <==> t in ring && t !in pending
      decreases pending
    {
      SomeKey(pending);
      var t :| t in pending;
      RingViews.NoDuplicatesSnoc(keys, t);
      keys := keys + [t];
      pending := pending - {t};
    }
  }

  class SocketCoordinator {
    var knownTokens: seq<int>
    var knownNodeIds: seq<string>
    var ringView: map<int, string>

    /** The constructor on a non-empty seed list: the seed ring and its sorted tokens. */
    constructor Seeded(seedIds: seq<string>, space: int)
      requires |seedIds| > 0
      ensures knownNodeIds == seedIds
      ensures ringView == SeedRing(seedIds, |seedIds|, space)
      ensures SortedBy(knownTokens, IntLe)
      ensures multiset(knownTokens) == multiset(SeedTokens(|seedIds|, space, |seedIds|))
    {
      var ring, tokens := SeedLoop(seedIds, space);
      knownNodeIds := seedIds;
      ringView := ring;
      knownTokens := tokens;
    }

    /** The constructor's `forEach`: writes each seed under its token, pushing the token and re-sorting. */
    static method SeedLoop(seedIds: seq<string>, space: int) returns (ring: map<int, string>, tokens: seq<int>)
      ensures ring == SeedRing(seedIds, |seedIds|, space)
      ensures SortedBy(tokens, IntLe) && multiset(tokens) == multiset(SeedTokens(|seedIds|, space, |seedIds|))
    {
      var n := |seedIds|;
      ring := map[];
      tokens := [];
      var index := 0;
      while index < n
        invariant 0 <= index <= n
        invariant ring == SeedRing(seedIds[..index], n, space)
        invariant SortedBy(tokens, IntLe) && multiset(tokens) == multiset(SeedTokens(n, space, index))
      {
        var token := SeedToken(index, n, space);
        SeedRingStep(seedIds, index, n, space);
        ring := ring[token := seedIds[index]];
        SeedTokensStep(tokens, index, n, space);
        tokens := Sort(tokens + [token], IntLe);
        index := index + 1;
      }
      assert seedIds[..n] == seedIds;
    }

    /** `new SocketCoordinator(seedIds)`: refused (`None`) on an empty seed list. */
    static method Create(seedIds: seq<string>, space: int) returns (r: Option<SocketCoordinator>)
      ensures r.None? <==> |seedIds| == 0
      ensures r.Some? ==> && fresh(r.value)
                          && r.value.knownNodeIds == seedIds
                          && r.value.ringView == SeedRing(seedIds, |seedIds|, space)
                          && SortedBy(r.value.knownTokens, IntLe)
                          && multiset(r.value.knownTokens) == multiset(SeedTokens(|seedIds|, space, |seedIds|))
    {
      if |seedIds| == 0 {
        return None;
      }
      var c := new SocketCoordinator.Seeded(seedIds, space);
      return Some(c);
    }

    /**
      The response handler of `updateMembership`: a response carrying a
      token map replaces the ring and rebuilds the token and id lists; any
      other response changes nothing.
     */
    method ApplyRingView(response: Option<map<int, string>>) returns (ok: bool)
      modifies this
      ensures ok <==> response.Some?
      ensures !ok ==> ringView == old(ringView) && knownTokens == old(knownTokens) && knownNodeIds == old(knownNodeIds)
      ensures ok ==> ringView == response.value && TokensOf(knownTokens, ringView)
      ensures ok ==> RingViews.NoDuplicates(knownNodeIds) && forall n :: n in knownNodeIds <==> n in ringView.Values
    {
      if response.None? {
        return false;
      }
      ringView := response.value;
      var keys := KeysOf(ringView);
      IntLeTotal();
      SortKeepsElements(keys, IntLe);
      knownTokens := Sort(keys, IntLe);
      knownNodeIds := RingViews.ListOf(ringView.Values);
      return true;
    }

    /** The loop finding `startIdx`, with its `break`. */
    static method FindStart(tokens: seq<int>, h: int) returns (start: nat)
      ensures start == StartIndex(tokens, h)
    {
      start := 0;
      var i := 0;
      while i < |tokens|
        invariant 0 <= i <= |tokens|
        invariant StartIndex(tokens, h) == FirstFrom(tokens, h, i)
      {
        if tokens[i] >= h {
          start := i;
          break;
        }
        i := i + 1;
      }
    }

    /** The loop walking the ring from `start`, collecting distinct owners until `size` are found. */
    static method CollectOwners(tokens: seq<int>, ring: map<int, string>, start: nat, size: int)
      returns (nodes: seq<string>)
      ensures nodes == Take(DistinctNonEmpty(Walk(tokens, ring, start, |tokens|)), size)
    {
      ghost var w := Walk(tokens, ring, start, |tokens|);
      nodes := [];
      var seen: set<string> := {};
      var i := 0;
      while |nodes| < size && i < |tokens|
        invariant 0 <= i <= |tokens|
        invariant nodes == DistinctNonEmpty(w[..i])
        invariant forall x :: x in seen <==> x in nodes
        invariant |nodes| <= if size < 0 then 0 else size
      {
        var idx := (start + i) % |tokens|;
        var token := tokens[idx];
        var nodeId := if token in ring then ring[token] else "";
        assert w[..i + 1] == w[..i] + [nodeId];
        DistinctNonEmptySnoc(w[..i], nodeId);
        if nodeId != "" && nodeId !in seen {
          nodes := nodes + [nodeId];
          seen := seen + {nodeId};
        }
        i := i + 1;
      }
      TakeWalk(w, size, i);
    }

    /**
      `getResponsibleNodes(listId)`: hashes `shoppinglist_<listId>` into the
      space, then walks the ring; fails (`None`) when the space is 0.
     */
    method GetResponsibleNodes(sha1: string -> Digest, listId: string, space: int, size: int)
      returns (nodes: Option<seq<string>>)
      ensures nodes.None? <==> space == 0
      ensures nodes.Some? ==>
                nodes.value == PreferenceList(knownTokens, ringView,
                                              ClientHashKey(sha1, "shoppinglist_" + listId, space).value, size)
    {
      var hash := ClientHashKey(sha1, "shoppinglist_" + listId, space);
      if hash.None? {
        return None;
      }
      var start := FindStart(knownTokens, hash.value);
      var list := CollectOwners(knownTokens, ringView, start, size);
      return Some(list);
    }
  }
}
