/** The encoder's match finder: hash chains threaded through `head` and the
  32 KiB ring `prev`, which starts uninitialised. */
module HashChains {
  import opened Bits

  const WINDOW: nat := 32768
  const HASH_SIZE: nat := 32768
  const MIN_MATCH: nat := 3
  const MAX_MATCH: nat := 258
  const MAX_CHAIN: nat := 48

  /** Multiplicative hash of three bytes in 32-bit arithmetic; the shifted bytes
    do not overlap, so the source's `|` is a sum. */
  function Hash(input: seq<Byte>, i: nat): (h: nat)
    requires i + MIN_MATCH <= |input|
    ensures h < HASH_SIZE
  {
    var word: int := 0x1_0000 * (input[i] as int) + 0x100 * (input[i + 1] as int) + (input[i + 2] as int);
    word * 2654435761 % 0x1_0000_0000 / 0x2_0000
  }

  /** The n bytes at pos repeat those `distance` before them. */
  ghost predicate Repeats(input: seq<Byte>, pos: nat, distance: nat, n: nat) {
    distance <= pos && pos + n <= |input| &&
    forall k :: pos <= k < pos + n ==> input[k - distance] == input[k]
  }

  /** What the two tables hold once positions 0..n are indexed. `link[p]` is the
    entry written for position p: the last earlier position with the same hash, or
    -1. The ring keeps it for as long as p is within the window. */
  ghost predicate Chained(input: seq<Byte>, head: seq<int>, prev: seq<int>, link: seq<int>) {
    && |head| == HASH_SIZE && |prev| == WINDOW
    && (|link| > 0 ==> |link| + MIN_MATCH - 1 <= |input|)
    && (forall h :: 0 <= h < HASH_SIZE ==> IsHead(input, link, h, head[h]))
    && (forall p :: 0 <= p < |link| ==> IsLink(input, link, p))
    && (forall p :: 0 <= p < |link| && |link| - p <= WINDOW ==> prev[p % WINDOW] == link[p])
  }

  /** No position strictly between has the hash. */
  ghost predicate NoneBetween(input: seq<Byte>, h: nat, low: int, high: int) {
    forall q :: 0 <= q && low < q < high && q + MIN_MATCH <= |input| ==> Hash(input, q) != h
  }

  ghost predicate IsHead(input: seq<Byte>, link: seq<int>, h: nat, p: int)
    requires |link| > 0 ==> |link| + MIN_MATCH - 1 <= |input|
  {
    -1 <= p < |link| && (p >= 0 ==> Hash(input, p) == h) && NoneBetween(input, h, p, |link|)
  }

  ghost predicate IsLink(input: seq<Byte>, link: seq<int>, p: nat)
    requires p < |link| && |link| + MIN_MATCH - 1 <= |input|
  {
    -1 <= link[p] < p && (link[p] >= 0 ==> Hash(input, link[p]) == Hash(input, p)) && NoneBetween(input, Hash(input, p), link[p], p)
  }

  /** The positions a search followed: all indexed, strictly descending, all in
    the bucket of the searched position, each reached from the one before by the
    entry written for it. */
  ghost predicate Followed(input: seq<Byte>, link: seq<int>, pos: nat, chain: seq<nat>)
    requires pos + MIN_MATCH <= |input|
  {
    forall i :: 0 <= i < |chain| ==> FollowedAt(input, link, pos, chain, i)
  }

  ghost predicate FollowedAt(input: seq<Byte>, link: seq<int>, pos: nat, chain: seq<nat>, i: nat)
    requires pos + MIN_MATCH <= |input| && i < |chain|
  {
    && chain[i] < |link| && chain[i] < pos && Hash(input, chain[i]) == Hash(input, pos)
    && (i > 0 ==> chain[i - 1] < |link| && chain[i] == link[chain[i - 1]] < chain[i - 1])
  }

  lemma FollowNext(input: seq<Byte>, link: seq<int>, pos: nat, chain: seq<nat>)
    requires pos + MIN_MATCH <= |input| && 0 < |link| && |link| + MIN_MATCH - 1 <= |input|
    requires chain != [] && Followed(input, link, pos, chain)
    requires var last := chain[|chain| - 1]; last < |link| && IsLink(input, link, last) && link[last] >= 0
    ensures Followed(input, link, pos, chain + [link[chain[|chain| - 1]]])
  {
    hide Hash;
    var n := |chain|;
    var next: seq<nat> := chain + [link[chain[n - 1]]];
    assert FollowedAt(input, link, pos, chain, n - 1);
    forall i | 0 <= i < |next|
      ensures FollowedAt(input, link, pos, next, i)
    {
      assert i < n ==> FollowedAt(input, link, pos, chain, i) && next[i] == chain[i];
    }
  }

  lemma RingSlotsDiffer(p: nat, q: nat)
    requires p < q < p + WINDOW
    ensures p % WINDOW != q % WINDOW
  {
  }

  method Index(input: seq<Byte>, i: nat, head: array<int>, prev: array<int>, ghost link: seq<int>)
    returns (ghost link': seq<int>)
    requires head != prev && head.Length == HASH_SIZE && prev.Length == WINDOW
    requires i + MIN_MATCH <= |input| && |link| == i
    requires Chained(input, head[..], prev[..], link)
    modifies head, prev
    ensures |link'| == i + 1 && link'[..i] == link
    ensures Chained(input, head[..], prev[..], link')
  {
    hide Hash;
    var h := Hash(input, i);
    link' := link + [head[h]];
    assert IsHead(input, link, h, head[..][h]);
    assert forall p :: 0 <= p < i ==> IsLink(input, link, p) ==> IsLink(input, link', p);
    assert IsLink(input, link', i);
    prev[i % WINDOW] := head[h];
    head[h] := i;
    forall p | 0 <= p < |link'| && |link'| - p <= WINDOW
      ensures prev[..][p % WINDOW] == link'[p]
    {
      if p < i {
        RingSlotsDiffer(p, i);
        assert prev[..][p % WINDOW] == old(prev[..])[p % WINDOW];
      }
    }
    forall k | 0 <= k < HASH_SIZE
      ensures IsHead(input, link', k, head[..][k])
    {
      assert k != h ==> IsHead(input, link, k, old(head[..])[k]);
    }
  }

  /** Counts the bytes at pos that repeat those `distance` before, up to limit. */
  method RepeatLength(input: seq<Byte>, pos: nat, distance: nat, limit: nat) returns (n: nat)
    requires distance <= pos && pos + limit <= |input|
    ensures n <= limit && Repeats(input, pos, distance, n)
    ensures n < limit ==> !Repeats(input, pos, distance, n + 1)
  {
    n := 0;
    while n < limit && input[pos - distance + n] == input[pos + n]
      invariant n <= limit && Repeats(input, pos, distance, n)
    {
      n := n + 1;
    }
    assert n < limit ==> input[(pos + n) - distance] != input[pos + n];
  }

  lemma FollowFirst(input: seq<Byte>, link: seq<int>, pos: nat, head: int)
    requires pos + MIN_MATCH <= |input| && |link| == pos
    requires IsHead(input, link, Hash(input, pos), head)
    ensures Followed(input, link, pos, [])
    ensures head >= 0 ==> Followed(input, link, pos, [head])
  {
  }

  /** Every position after `low` with the hash of pos is on the chain. */
  ghost predicate Covers(input: seq<Byte>, pos: nat, low: int, chain: seq<nat>)
    requires pos + MIN_MATCH <= |input|
  {
    forall q: nat :: low < q < pos && Hash(input, q) == Hash(input, pos) ==> q in chain
  }

  lemma CoversFirst(input: seq<Byte>, link: seq<int>, pos: nat, head: int)
    requires pos + MIN_MATCH <= |input| && |link| == pos && IsHead(input, link, Hash(input, pos), head)
    ensures Covers(input, pos, head, []) && (head >= 0 ==> Hash(input, head) == Hash(input, pos))
  {
    hide Hash;
  }

  lemma CoversNext(input: seq<Byte>, link: seq<int>, pos: nat, c: nat, chain: seq<nat>)
    requires pos + MIN_MATCH <= |input| && c < pos == |link| && Covers(input, pos, c, chain)
    requires IsLink(input, link, c) && Hash(input, c) == Hash(input, pos)
    ensures Covers(input, pos, link[c], chain + [c]) && (link[c] >= 0 ==> Hash(input, link[c]) == Hash(input, pos))
  {
    hide Hash;
  }

  lemma CoversWindow(input: seq<Byte>, pos: nat, low: int, chain: seq<nat>)
    requires pos + MIN_MATCH <= |input| && Covers(input, pos, low, chain) && (low <= pos - WINDOW || low == -1)
    ensures Covers(input, pos, pos - WINDOW, chain)
  {
    hide Hash;
  }

  // ---- which match is the best ----

  /** The positions after c in the bucket of pos. */
  ghost function Between(input: seq<Byte>, pos: nat, c: nat): set<nat>
    requires pos + MIN_MATCH <= |input|
  {
    set q: nat | c < q < pos && Hash(input, q) == Hash(input, pos)
  }

  /** A position a search of pos looks at: one with the hash of pos in the window of
    32 KiB, of which there are fewer than 48 nearer ones. */
  ghost predicate Near(input: seq<Byte>, pos: nat, c: nat)
    requires pos + MIN_MATCH <= |input|
  {
    c < pos && pos - c <= 32767 && Hash(input, c) == Hash(input, pos) && |Between(input, pos, c)| < 48
  }

  /** None of them repeats n bytes. */
  ghost predicate NoneRepeats(input: seq<Byte>, pos: nat, n: nat)
    requires pos + MIN_MATCH <= |input|
  {
    forall c: nat :: Near(input, pos, c) ==> !Repeats(input, pos, pos - c, n)
  }

  /** None nearer than the distance repeats n bytes. */
  ghost predicate NoneNearer(input: seq<Byte>, pos: nat, distance: nat, n: nat)
    requires pos + MIN_MATCH <= |input|
  {
    forall c: nat :: Near(input, pos, c) && pos - c < distance ==> !Repeats(input, pos, pos - c, n)
  }

  ghost function Members(chain: seq<nat>): set<nat> {
    set x | x in chain
  }

  /** The chain followed so far: descending towards the candidate, no position twice. */
  ghost predicate Descends(chain: seq<nat>, candidate: int, pos: nat) {
    && (forall x :: x in chain ==> candidate < x < pos)
    && |Members(chain)| == |chain|
  }

  lemma DescendsNext(chain: seq<nat>, candidate: nat, next: int, pos: nat)
    requires Descends(chain, candidate, pos) && next < candidate < pos
    ensures Descends(chain + [candidate], next, pos)
  {
    assert Members(chain + [candidate]) == Members(chain) + {candidate} && candidate !in Members(chain);
  }

  /** Whatever a search looks at is on the chain when it has covered the window or
    followed 48 positions. */
  lemma NearIsFollowed(input: seq<Byte>, pos: nat, chain: seq<nat>, candidate: int, c: nat)
    requires pos + MIN_MATCH <= |input| && Descends(chain, candidate, pos) && Covers(input, pos, candidate, chain)
    requires forall x :: x in chain ==> x + MIN_MATCH <= |input| && Hash(input, x) == Hash(input, pos)
    requires candidate <= pos - WINDOW || candidate == -1 || |chain| == MAX_CHAIN
    requires Near(input, pos, c)
    ensures c in chain
  {
    hide Hash;
    if c !in chain {
      assert c <= candidate;
      assert Members(chain) <= Between(input, pos, c);
      Subset(Members(chain), Between(input, pos, c));
    }
  }

  lemma Subset(a: set<nat>, b: set<nat>)
    requires a <= b
    ensures |a| <= |b|
  {
    assert b == a + (b - a);
  }

  lemma RepeatsLess(input: seq<Byte>, pos: nat, distance: nat, n: nat, m: nat)
    requires m <= n && Repeats(input, pos, distance, n)
    ensures Repeats(input, pos, distance, m)
  {
  }

  /** Takes a candidate if it repeats more bytes than the best so far. */
  method Better(input: seq<Byte>, pos: nat, candidate: nat, limit: nat, length: nat, distance: nat)
    returns (bestLength: nat, bestDistance: nat)
    requires candidate < pos && pos - candidate <= WINDOW - 1 && pos + limit <= |input| && length < limit
    requires length == distance == 0 || (1 <= length && 1 <= distance <= WINDOW - 1 && Repeats(input, pos, distance, length))
    ensures length <= bestLength <= limit
    ensures bestLength == bestDistance == 0 ||
            (1 <= bestLength && 1 <= bestDistance <= WINDOW - 1 && Repeats(input, pos, bestDistance, bestLength))
    ensures bestLength == limit || !Repeats(input, pos, pos - candidate, bestLength + 1)
    ensures (bestLength, bestDistance) == (length, distance) || (bestLength > length && bestDistance == pos - candidate)
  {
    bestLength, bestDistance := length, distance;
    var d := pos - candidate;
    if input[candidate + length] == input[pos + length] && input[candidate] == input[pos] {
      var n := RepeatLength(input, pos, d, limit);
      if n > length {
        bestLength, bestDistance := n, d;
      }
    } else {
      assert input[(pos + length) - d] == input[candidate + length];
      assert input[pos - d] == input[candidate];
    }
  }

  /** The state of a search: what is on the chain, and that nothing on it is nearer than
    the best and repeats as many bytes. */
  ghost predicate Searched(input: seq<Byte>, pos: nat, chain: seq<nat>, candidate: int, length: nat, distance: nat)
    requires pos + MIN_MATCH <= |input|
  {
    && Descends(chain, candidate, pos) && Covers(input, pos, candidate, chain)
    && (forall x :: x in chain ==> x < pos && Hash(input, x) == Hash(input, pos))
    && (length > 0 ==> distance <= pos && pos - distance in chain)
    && (forall c :: c in chain && pos - c < distance ==> !Repeats(input, pos, pos - c, length))
  }

  /** Nothing on the chain repeats n bytes. */
  ghost predicate NoneOn(input: seq<Byte>, pos: nat, chain: seq<nat>, n: nat) {
    forall c :: c in chain ==> c < pos && !Repeats(input, pos, pos - c, n)
  }

  lemma NoneOnNext(input: seq<Byte>, pos: nat, chain: seq<nat>, candidate: nat, n: nat, n': nat)
    requires NoneOn(input, pos, chain, n) && n <= n' && candidate < pos && !Repeats(input, pos, pos - candidate, n')
    ensures NoneOn(input, pos, chain + [candidate], n')
  {
    hide Repeats;
    forall c | c in chain
      ensures !Repeats(input, pos, pos - c, n')
    {
      if Repeats(input, pos, pos - c, n') {
        RepeatsLess(input, pos, pos - c, n', n);
      }
    }
  }

  lemma SearchStarts(input: seq<Byte>, pos: nat, candidate: int)
    requires pos + MIN_MATCH <= |input| && Covers(input, pos, candidate, [])
    ensures Searched(input, pos, [], candidate, 0, 0) && NoneOn(input, pos, [], 1)
  {
    var chain: seq<nat> := [];
    assert Members(chain) == {};
  }

  lemma SearchedNext(input: seq<Byte>, pos: nat, chain: seq<nat>, candidate: nat, next: int, length: nat, distance: nat, length': nat, distance': nat)
    requires pos + MIN_MATCH <= |input| && Searched(input, pos, chain, candidate, length, distance) && next < candidate < pos
    requires Hash(input, candidate) == Hash(input, pos) && Covers(input, pos, next, chain + [candidate])
    requires NoneOn(input, pos, chain, length + 1)
    requires (length', distance') == (length, distance) || (length' > length && distance' == pos - candidate)
    requires length == 0 ==> distance == 0
    ensures Searched(input, pos, chain + [candidate], next, length', distance')
  {
    hide Hash, Covers, Repeats;
    DescendsNext(chain, candidate, next, pos);
    forall c | c in chain + [candidate] && pos - c < distance'
      ensures !Repeats(input, pos, pos - c, length')
    {
      if length' > length && c in chain && Repeats(input, pos, pos - c, length') {
        RepeatsLess(input, pos, pos - c, length', length + 1);
      }
    }
  }

  lemma NoneBetter(input: seq<Byte>, pos: nat, chain: seq<nat>, candidate: int, length: nat, distance: nat)
    requires pos + MIN_MATCH <= |input| && Searched(input, pos, chain, candidate, length, distance)
    requires candidate <= pos - WINDOW || candidate == -1 || |chain| == MAX_CHAIN
    requires NoneOn(input, pos, chain, length + 1)
    ensures NoneRepeats(input, pos, length + 1) && NoneNearer(input, pos, distance, length)
  {
    hide Hash, Repeats, Near, Descends, Covers;
    forall c: nat | Near(input, pos, c)
      ensures c in chain
    {
      NearIsFollowed(input, pos, chain, candidate, c);
    }
  }

  /** When a search ends at the longest match possible, it has passed all that is nearer. */
  lemma FoundNearest(input: seq<Byte>, pos: nat, chain: seq<nat>, candidate: int, length: nat, distance: nat)
    requires pos + MIN_MATCH <= |input| && Searched(input, pos, chain, candidate, length, distance) && length > 0
    ensures NoneNearer(input, pos, distance, length)
  {
    hide Hash, Repeats, Covers;
    forall c: nat | Near(input, pos, c) && pos - c < distance
      ensures c in chain
    {
      InChain(input, pos, chain, candidate, c);
    }
  }

  lemma InChain(input: seq<Byte>, pos: nat, chain: seq<nat>, candidate: int, c: nat)
    requires pos + MIN_MATCH <= |input| && Covers(input, pos, candidate, chain) && candidate < c < pos && Hash(input, c) == Hash(input, pos)
    ensures c in chain
  {
  }

  /** Searches the bucket of pos for the longest repeat. Every entry read from
    the ring is the one written for the candidate at hand, so none is
    uninitialised or overwritten; no candidate followed repeats more bytes; and
    unless it stops early, every position of the bucket in the window is followed. */
  method FindMatch(input: seq<Byte>, pos: nat, head: array<int>, prev: array<int>, ghost link: seq<int>)
    returns (bestLength: nat, bestDistance: nat, ghost chain: seq<nat>)
    requires head.Length == HASH_SIZE && prev.Length == WINDOW
    requires pos + MIN_MATCH <= |input| && |link| == pos
    requires Chained(input, head[..], prev[..], link)
    ensures Followed(input, link, pos, chain) && |chain| <= MAX_CHAIN
    ensures bestLength == bestDistance == 0 ||
            (1 <= bestLength <= MAX_MATCH && 1 <= bestDistance <= WINDOW - 1 && Repeats(input, pos, bestDistance, bestLength))
    ensures bestLength == MAX_MATCH || pos + bestLength == |input| ||
            NoneOn(input, pos, chain, bestLength + 1)
    ensures bestLength == MAX_MATCH || pos + bestLength == |input| || |chain| == MAX_CHAIN || Covers(input, pos, pos - WINDOW, chain)
    ensures bestLength == 258 || pos + bestLength == |input| || NoneRepeats(input, pos, bestLength + 1)
    ensures bestLength > 0 ==> NoneNearer(input, pos, bestDistance, bestLength)
  {
    hide Hash, Followed, Covers, NoneBetween, NoneRepeats, NoneNearer, Searched, NoneOn, Repeats;
    bestLength, bestDistance, chain := 0, 0, [];
    var h := Hash(input, pos);
    var candidate := head[h];
    assert IsHead(input, link, h, head[..][h]);
    FollowFirst(input, link, pos, candidate);
    CoversFirst(input, link, pos, candidate);
    assert chain + [candidate] == [candidate];
    SearchStarts(input, pos, candidate);
    var limit := if |input| - pos < MAX_MATCH then |input| - pos else MAX_MATCH;
    var steps := 0;
    while candidate >= 0 && steps < MAX_CHAIN
      invariant -1 <= candidate < pos && |chain| == steps <= MAX_CHAIN
      invariant candidate >= 0 ==> Followed(input, link, pos, chain + [candidate])
      invariant Followed(input, link, pos, chain)
      invariant bestLength == bestDistance == 0 ||
                (1 <= bestLength && 1 <= bestDistance <= WINDOW - 1 && Repeats(input, pos, bestDistance, bestLength))
      invariant bestLength < limit && Covers(input, pos, candidate, chain)
      invariant candidate >= 0 ==> Hash(input, candidate) == h
      invariant NoneOn(input, pos, chain, bestLength + 1)
      invariant Searched(input, pos, chain, candidate, bestLength, bestDistance)
      decreases MAX_CHAIN - steps
    {
      var distance := pos - candidate;
      if distance > WINDOW - 1 {
        break;
      }
      assert IsLink(input, link, candidate);
      CoversNext(input, link, pos, candidate, chain);
      ghost var before, length, nearest := chain, bestLength, bestDistance;
      chain := chain + [candidate];
      bestLength, bestDistance := Better(input, pos, candidate, limit, bestLength, bestDistance);
      SearchedNext(input, pos, before, candidate, link[candidate], length, nearest, bestLength, bestDistance);
      if bestLength == limit {
        FoundNearest(input, pos, chain, link[candidate], bestLength, bestDistance);
        break;
      }
      NoneOnNext(input, pos, before, candidate, length + 1, bestLength + 1);
      assert prev[..][candidate % WINDOW] == link[candidate];
      if link[candidate] >= 0 {
        FollowNext(input, link, pos, chain);
      }
      candidate := prev[candidate % WINDOW];
      steps := steps + 1;
    }
    if bestLength < limit {
      NoneBetter(input, pos, chain, candidate, bestLength, bestDistance);
    }
    if candidate <= pos - WINDOW || candidate == -1 {
      CoversWindow(input, pos, candidate, chain);
    }
  }
}
