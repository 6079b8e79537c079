/** The DNS answer cache, DNS_Server/sources/dns_cache.c: a 40-way trie of nodes
    linked through child arrays. The trie is proved to be a map from case-folded
    names to answers, and the map's whole history is then related to the time to
    live of each answer. */
module DnsCache {
  import opened Bytes

  const CACHE_CHARS := 40
  const MAX_PACKET_SIZE := 512
  const CLOCK := 0x1_0000_0000

  /** get_trie_index; None for its -1. */
  function TrieIndex(c: char): (r: Option<nat>)
    ensures r.Some? ==> r.value < 39
  {
    if 'a' <= c <= 'z' then Some((c - 'a') as nat)
    else if 'A' <= c <= 'Z' then Some((c - 'A') as nat)
    else if '0' <= c <= '9' then Some(26 + (c - '0') as nat)
    else if c == '-' then Some(36)
    else if c == '_' then Some(37)
    else if c == '.' then Some(38)
    else None
  }

  function Lower(c: char): char
  {
    if 'A' <= c <= 'Z' then c - 'A' + 'a' else c
  }

  /** The index tells two acceptable characters apart exactly up to case. */
  lemma {:induction false} IndexIsCaseFold(c: char, d: char)
    requires TrieIndex(c).Some? && TrieIndex(d).Some?
    ensures TrieIndex(c) == TrieIndex(d) <==> Lower(c) == Lower(d)
  {
  }

  /** Letters, digits, hyphen, underscore and dot can be cached, and nothing else. */
  lemma {:induction false} IndexedCharacters(c: char)
    ensures TrieIndex(c).Some? <==>
      'a' <= Lower(c) <= 'z' || '0' <= c <= '9' || c in {'-', '_', '.'}
  {
  }

  type Path = seq<nat>

  predicate Cacheable(name: string)
  {
    forall i :: 0 <= i < |name| ==> TrieIndex(name[i]).Some?
  }

  /** The way through the trie that a name spells. */
  function PathOf(name: string): (p: Path)
    requires Cacheable(name)
    ensures |p| == |name| && forall i :: 0 <= i < |p| ==> p[i] == TrieIndex(name[i]).value
  {
    seq(|name|, i requires 0 <= i < |name| => TrieIndex(name[i]).value)
  }

  /** Two names share a path exactly when they are the same name up to case, which is
      how DNS compares names (section 2.3.3 of RFC 1035). */
  lemma {:induction false} SamePathIsSameName(a: string, b: string)
    requires Cacheable(a) && Cacheable(b)
    ensures PathOf(a) == PathOf(b) <==> |a| == |b| && forall i :: 0 <= i < |a| ==> Lower(a[i]) == Lower(b[i])
  {
    if |a| == |b| {
      forall i | 0 <= i < |a|
        ensures PathOf(a)[i] == PathOf(b)[i] <==> Lower(a[i]) == Lower(b[i])
      {
        IndexIsCaseFold(a[i], b[i]);
      }
    }
  }

  /** p is the path the first i characters of name spell. */
  ghost predicate Spells(name: string, i: nat, p: Path)
  {
    |p| == i <= |name| && forall j :: 0 <= j < i ==> TrieIndex(name[j]) == Some(p[j])
  }

  lemma {:induction false} SpellsOn(name: string, i: nat, p: Path)
    requires Spells(name, i, p) && i < |name| && TrieIndex(name[i]).Some?
    ensures Spells(name, i + 1, p + [TrieIndex(name[i]).value])
  {
  }

  lemma {:induction false} SpellsWhole(name: string, p: Path)
    requires Spells(name, |name|, p)
    ensures Cacheable(name) && PathOf(name) == p
  {
  }

  /** A path has one last step. */
  lemma {:induction false} OneStepBack(p: Path, k: nat)
    ensures forall q: Path, j: nat :: q + [j] == p + [k] ==> q == p && j == k
  {
    forall q: Path, j: nat | q + [j] == p + [k] ensures q == p && j == k {
      assert (q + [j])[|q|] == j && (q + [j])[..|q|] == q && (p + [k])[..|p|] == p;
    }
  }

  /* ---------- the cache as a map ---------- */

  datatype Answer = Answer(response: seq<uint8>, expiresAt: uint32)

  type Answers = map<Path, Answer>

  /** now + ttl in 32-bit arithmetic. */
  function Expiry(now: uint32, ttl: uint32): uint32
  {
    (now + ttl) % CLOCK
  }

  function Inserted(m: Answers, name: string, response: seq<uint8>, now: uint32, ttl: uint32): Answers
  {
    if Cacheable(name) then m[PathOf(name) := Answer(response, Expiry(now, ttl))] else m
  }

  function Found(m: Answers, name: string, now: uint32): Option<Answer>
  {
    if Cacheable(name) && PathOf(name) in m && now < m[PathOf(name)].expiresAt then Some(m[PathOf(name)]) else None
  }

  /** A lookup drops the answer it finds expired. */
  function AfterLookup(m: Answers, name: string, now: uint32): Answers
  {
    if Cacheable(name) && PathOf(name) in m && now >= m[PathOf(name)].expiresAt then m - {PathOf(name)} else m
  }

  /* ---------- the trie ---------- */

  class Node {
    var isLeaf: bool
    var expiresAt: uint32
    var response: seq<uint8>
    var child: seq<Node?>

    /** new_cache_entry. */
    constructor ()
      ensures !isLeaf && |child| == CACHE_CHARS && forall k :: 0 <= k < CACHE_CHARS ==> child[k] == null
    {
      isLeaf, expiresAt, response := false, 0, [];
      child := seq(CACHE_CHARS, _ => null);
    }
  }

  /** Every path leads to a node of its own, and past the root through a parent. */
  ghost predicate ShapedIn(nodes: map<Path, Node>, root: Node, repr: set<Node>)
  {
    && [] in nodes && nodes[[]] == root
    && (forall p :: p in nodes ==> nodes[p] in repr)
    && (forall p, q :: p in nodes && q in nodes && p != q ==> nodes[p] != nodes[q])
    && (forall p, k: nat :: p + [k] in nodes ==> p in nodes)
  }

  lemma {:induction false} ShapeGrows(nodes: map<Path, Node>, root: Node, repr: set<Node>, p: Path, k: nat, next: Node)
    requires ShapedIn(nodes, root, repr) && p in nodes && p + [k] !in nodes && next !in repr
    ensures ShapedIn(nodes[p + [k] := next], root, repr + {next})
  {
    OneStepBack(p, k);
  }

  class Cache {
    const root: Node
    ghost var nodes: map<Path, Node>
    ghost var answers: Answers
    ghost var repr: set<Node>

    ghost predicate Shaped()
      reads this
    {
      ShapedIn(nodes, root, repr)
    }

    /** Child k of a node is the node one step further, and missing when there is none. */
    ghost predicate Linked()
      reads this, repr
      requires Shaped()
    {
      && (forall p :: p in nodes ==> |nodes[p].child| == CACHE_CHARS)
      && (forall p, k: nat :: p in nodes && k < CACHE_CHARS ==>
            nodes[p].child[k] == if p + [k] in nodes then nodes[p + [k]] else null)
    }

    /** The leaves of the trie are the answers. */
    ghost predicate Holding()
      reads this, repr
      requires Shaped()
    {
      && (forall p :: p in answers ==> p in nodes && answers[p] == Answer(nodes[p].response, nodes[p].expiresAt))
      && (forall p :: p in nodes ==> (nodes[p].isLeaf <==> p in answers))
    }

    ghost predicate Valid()
      reads this, repr
    {
      Shaped() && Linked() && Holding()
    }

    /** cache_initialize. */
    constructor ()
      ensures Valid() && answers == map[] && fresh(repr)
    {
      var node := new Node();
      root := node;
      nodes := map[[] := node];
      answers := map[];
      repr := {node};
    }

    lemma {:induction false} PrefixKnown(p: Path, n: nat)
      requires Shaped() && p in nodes && n <= |p|
      ensures p[..n] in nodes
    {
      if n == |p| {
        assert p[..n] == p;
      } else {
        var q := p[..|p| - 1];
        assert p == q + [p[|p| - 1]];
        PrefixKnown(q, n);
        assert q[..n] == p[..n];
      }
    }

    lemma {:induction false} NotThere(name: string, i: nat, p: Path)
      requires Shaped() && Spells(name, i, p) && i < |name|
      requires TrieIndex(name[i]).Some? ==> p + [TrieIndex(name[i]).value] !in nodes
      ensures !(Cacheable(name) && PathOf(name) in nodes)
    {
      if Cacheable(name) {
        assert PathOf(name)[..i + 1] == p + [TrieIndex(name[i]).value];
        if PathOf(name) in nodes {
          PrefixKnown(PathOf(name), i + 1);
          assert false;
        }
      }
    }

    /** Hanging a blank node under a node that lacks child k. */
    method Link(ghost p: Path, node: Node, k: nat, next: Node)
      requires Valid() && p in nodes && node == nodes[p] && k < CACHE_CHARS && node.child[k] == null
      requires next !in repr && !next.isLeaf && |next.child| == CACHE_CHARS
      requires forall j :: 0 <= j < CACHE_CHARS ==> next.child[j] == null
      modifies this, node
      ensures Valid() && answers == old(answers) && repr == old(repr) + {next}
      ensures p + [k] in nodes && nodes[p + [k]] == next
    {
      ghost var was := nodes;
      ShapeGrows(nodes, root, repr, p, k, next);
      node.child := node.child[k := next];
      nodes := nodes[p + [k] := next];
      repr := repr + {next};
      assert Holding();
      OneStepBack(p, k);
      assert Linked() by {
        forall q, j: nat | q in nodes && j < CACHE_CHARS
          ensures nodes[q].child[j] == if q + [j] in nodes then nodes[q + [j]] else null
        {
          if q in was {
            assert was[q].child[j] == if q == p && j == k then next else old(was[q].child[j]);
          } else {
            assert q + [j] !in was;
          }
        }
      }
    }

    /** Turning the node at p into an answer. */
    method Store(ghost p: Path, node: Node, response: seq<uint8>, expiresAt: uint32)
      requires Valid() && p in nodes && node == nodes[p]
      modifies this`answers, node
      ensures Valid() && answers == old(answers)[p := Answer(response, expiresAt)]
    {
      answers := answers[p := Answer(response, expiresAt)];
      node.isLeaf := true;
      node.expiresAt := expiresAt;
      node.response := response;
    }

    /** Clearing the answer at p. */
    method Drop(ghost p: Path, node: Node)
      requires Valid() && p in nodes && node == nodes[p]
      modifies this`answers, node
      ensures Valid() && answers == old(answers) - {p}
    {
      answers := answers - {p};
      node.isLeaf := false;
      node.expiresAt := 0;
    }

    /** The child the walk goes to next, made if it is not there. */
    method StepInto(ghost p: Path, node: Node, k: nat) returns (next: Node)
      requires Valid() && p in nodes && node == nodes[p] && k < CACHE_CHARS
      modifies this, node
      ensures Valid() && p + [k] in nodes && next == nodes[p + [k]] && answers == old(answers)
      ensures fresh(repr - old(repr))
    {
      if node.child[k] == null {
        next := new Node();
        Link(p, node, k, next);
      } else {
        next := node.child[k];
      }
    }

    /** cache_insert. A name with a character the trie has no place for leaves the
        answers alone, though it may have grown the trie. */
    method Insert(name: string, response: seq<uint8>, now: uint32, ttl: uint32)
      requires Valid() && |response| <= MAX_PACKET_SIZE
      modifies this, repr
      ensures Valid() && answers == Inserted(old(answers), name, response, now, ttl)
      ensures fresh(repr - old(repr))
    {
      var node := root;
      ghost var p: Path := [];
      for i := 0 to |name|
        invariant Spells(name, i, p) && Valid() && p in nodes && node == nodes[p]
        invariant answers == old(answers)
        invariant fresh(repr - old(repr))
      {
        var index := TrieIndex(name[i]);
        if index.None? {
          return;
        }
        node := StepInto(p, node, index.value);
        SpellsOn(name, i, p);
        p := p + [index.value];
      }
      SpellsWhole(name, p);
      Store(p, node, response, Expiry(now, ttl));
    }

    /** The walk of cache_lookup; null where it runs out of trie. */
    method Walk(name: string) returns (node: Node?)
      requires Valid()
      ensures node == null ==> !(Cacheable(name) && PathOf(name) in nodes)
      ensures node != null ==> Cacheable(name) && PathOf(name) in nodes && node == nodes[PathOf(name)]
    {
      node := root;
      ghost var p: Path := [];
      for i := 0 to |name|
        invariant Spells(name, i, p) && p in nodes && node == nodes[p]
      {
        var index := TrieIndex(name[i]);
        if index.None? || node.child[index.value] == null {
          NotThere(name, i, p);
          return null;
        }
        node := node.child[index.value];
        SpellsOn(name, i, p);
        p := p + [index.value];
      }
      SpellsWhole(name, p);
    }

    /** cache_lookup; null for its NULL. */
    method Lookup(name: string, now: uint32) returns (r: Node?)
      requires Valid()
      modifies this`answers, repr
      ensures Valid() && answers == AfterLookup(old(answers), name, now)
      ensures Found(old(answers), name, now) == if r == null then None else Some(Answer(r.response, r.expiresAt))
    {
      r := Walk(name);
      if r == null || !r.isLeaf {
        return null;
      }
      if now >= r.expiresAt {
        Drop(PathOf(name), r);
        return null;
      }
    }
  }

  /* ---------- answers over time ---------- */

  datatype Op = Insert(name: string, response: seq<uint8>, at: uint32, ttl: uint32) | Lookup(name: string, at: uint32)

  function Apply(m: Answers, op: Op): Answers
  {
    match op
    case Insert(name, response, at, ttl) => Inserted(m, name, response, at, ttl)
    case Lookup(name, at) => AfterLookup(m, name, at)
  }

  /** The cache after a history of calls. */
  function After(h: seq<Op>): Answers
  {
    if h == [] then map[] else Apply(After(h[..|h| - 1]), h[|h| - 1])
  }

  /** The calls happen in the order of the clock. */
  ghost predicate Timely(h: seq<Op>)
  {
    forall i, j :: 0 <= i < j < |h| ==> h[i].at <= h[j].at
  }

  predicate Stores(op: Op, p: Path)
  {
    op.Insert? && Cacheable(op.name) && PathOf(op.name) == p
  }

  /** The last insertion under path p, by index. */
  function Latest(h: seq<Op>, p: Path): (r: Option<nat>)
    ensures r.Some? ==> r.value < |h| && Stores(h[r.value], p)
    ensures r.Some? ==> forall j :: r.value < j < |h| ==> !Stores(h[j], p)
    ensures r.None? ==> forall j :: 0 <= j < |h| ==> !Stores(h[j], p)
  {
    if h == [] then None
    else if Stores(h[|h| - 1], p) then Some(|h| - 1)
    else Latest(h[..|h| - 1], p)
  }

  /** The cache holds the latest answer for p, unless that has run out. */
  ghost predicate UpToDate(h: seq<Op>, p: Path, now: int)
  {
    var i := Latest(h, p);
    if i.None? then p !in After(h)
    else
      var a := Answer(h[i.value].response, Expiry(h[i.value].at, h[i.value].ttl));
      if p in After(h) then After(h)[p] == a else a.expiresAt <= now
  }

  lemma {:induction false} HistoryIsUpToDate(h: seq<Op>, p: Path, now: int)
    requires Timely(h) && (h != [] ==> h[|h| - 1].at <= now)
    ensures UpToDate(h, p, now)
  {
    if h != [] {
      var n := |h| - 1;
      HistoryIsUpToDate(h[..n], p, h[n].at);
    }
  }

  /** Over any history of insertions and lookups: a lookup returns an answer exactly
      when the name was inserted, under any spelling of its case, and the latest
      insertion has not expired; and it returns that insertion's response. */
  lemma {:induction false} LookupIsLatest(h: seq<Op>, name: string, now: uint32)
    requires Timely(h) && (h != [] ==> h[|h| - 1].at <= now) && Cacheable(name)
    ensures var i := Latest(h, PathOf(name));
      Found(After(h), name, now) ==
        if i.Some? && now < Expiry(h[i.value].at, h[i.value].ttl)
        then Some(Answer(h[i.value].response, Expiry(h[i.value].at, h[i.value].ttl)))
        else None
  {
    HistoryIsUpToDate(h, PathOf(name), now);
  }

  /** A name the trie cannot spell is never found. */
  lemma {:induction false} UncacheableIsNeverFound(h: seq<Op>, name: string, now: uint32)
    requires !Cacheable(name)
    ensures Found(After(h), name, now) == None
    ensures forall response, at, ttl :: After(h + [Insert(name, response, at, ttl)]) == After(h)
  {
    forall response, at, ttl
      ensures After(h + [Insert(name, response, at, ttl)]) == After(h)
    {
      assert (h + [Insert(name, response, at, ttl)])[..|h|] == h;
    }
  }

  /** The test a lookup makes, and what the time to live promises. */
  predicate Served(at: uint32, ttl: uint32, now: uint32)
  {
    now < Expiry(at, ttl)
  }

  predicate Promised(at: uint32, ttl: uint32, now: uint32)
  {
    now - at < ttl
  }

  /** An answer lives exactly as long as its time to live says if and only if the
      32-bit expiry time does not wrap; when it wraps the answer is born expired. */
  lemma {:induction false} LivesItsTtl(at: uint32, ttl: uint32)
    ensures (forall now: uint32 :: at <= now ==> (Served(at, ttl, now) <==> Promised(at, ttl, now))) <==>
      at + ttl < CLOCK
    ensures at + ttl >= CLOCK ==> forall now: uint32 :: at <= now ==> !Served(at, ttl, now)
  {
    if at + ttl >= CLOCK {
      assert Expiry(at, ttl) == at + ttl - CLOCK;
      assert !Served(at, ttl, at) && Promised(at, ttl, at);
    }
  }
}
