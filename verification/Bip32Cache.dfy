/** lib/trezor-crypto/bip32.c: private derivation along a path, with a ring of remembered parents.
    One derivation step and the fingerprint are not interpreted; both may change the node they are
    given, the step also when it fails. */
module Bip32Cache {
  import opened Words

  const SIZE: nat := 10
  const MAXDEPTH: nat := 8

  datatype HDNode = HDNode(
    depth: uint32, childNum: uint32, chainCode: seq<uint8>, privateKey: seq<uint8>,
    privateKeyExtension: seq<uint8>, publicKey: seq<uint8>, isPublicKeySet: bool, curve: nat)

  datatype Scheme = Scheme(step: (HDNode, uint32) -> (HDNode, bool), fingerprint: HDNode -> (HDNode, uint32))

  /** Status, the node left in place of the argument, and the fingerprint if one was written. */
  datatype Outcome = Outcome(ok: bool, node: HDNode, fingerprint: Option<uint32>)

  // Derivation without a cache

  /** Steps along the path up to the first that fails. */
  function Walk(g: Scheme, n: HDNode, path: seq<uint32>): (HDNode, bool)
    decreases |path|
  {
    if |path| == 0 then (n, true)
    else
      var (m, ok) := g.step(n, path[0]);
      if ok then Walk(g, m, path[1..]) else (m, false)
  }

  /** The fingerprint of the parent, if asked for, and the last step. */
  function Last(g: Scheme, parent: HDNode, i: uint32, want: bool): Outcome {
    var (p, f) := if want then (g.fingerprint(parent).0, Some(g.fingerprint(parent).1)) else (parent, None);
    var (child, ok) := g.step(p, i);
    Outcome(ok, child, f)
  }

  function Plain(g: Scheme, n: HDNode, path: seq<uint32>, want: bool): Outcome {
    if |path| == 0 then Outcome(true, n, None)
    else
      var (parent, ok) := Walk(g, n, path[..|path| - 1]);
      if ok then Last(g, parent, path[|path| - 1], want) else Outcome(false, parent, None)
  }

  lemma {:induction false} WalkConcat(g: Scheme, n: HDNode, p: seq<uint32>, q: seq<uint32>)
    ensures Walk(g, n, p + q) == if Walk(g, n, p).1 then Walk(g, Walk(g, n, p).0, q) else Walk(g, n, p)
    decreases |p|
  {
    if |p| == 0 {
      assert p + q == q;
    } else {
      assert (p + q)[1..] == p[1..] + q;
      WalkConcat(g, g.step(n, p[0]).0, p[1..], q);
    }
  }

  /** Without a fingerprint the result is the walk along the whole path. */
  lemma PlainIsWalk(g: Scheme, n: HDNode, path: seq<uint32>)
    ensures var o := Plain(g, n, path, false); (o.node, o.ok) == Walk(g, n, path)
  {
    if |path| > 0 {
      var k := |path| - 1;
      WalkConcat(g, n, path[..k], path[k..]);
      assert path == path[..k] + path[k..];
    }
  }

  /** The fingerprint handed out is that of the parent.  If making it does not change what is derived,
      asking for it changes neither status nor node. */
  lemma FingerprintOfParent(g: Scheme, n: HDNode, path: seq<uint32>)
    requires |path| > 0
    ensures var (parent, ok) := Walk(g, n, path[..|path| - 1]);
      Plain(g, n, path, true).fingerprint == if ok then Some(g.fingerprint(parent).1) else None
    ensures Plain(g, n, path, false).fingerprint == None
    ensures (forall p: HDNode, i: uint32 :: g.step(g.fingerprint(p).0, i) == g.step(p, i)) ==>
      var o := Plain(g, n, path, true); (o.node, o.ok) == Walk(g, n, path)
  {
    PlainIsWalk(g, n, path);
    var k := |path| - 1;
    var (parent, ok) := Walk(g, n, path[..k]);
    hide Walk;
    if ok && forall p: HDNode, i: uint32 :: g.step(g.fingerprint(p).0, i) == g.step(p, i) {
      assert g.step(g.fingerprint(parent).0, path[k]) == g.step(parent, path[k]);
    }
  }

  // The cache

  datatype Entry = Entry(set_: bool, depth: nat, path: seq<uint32>, node: HDNode)

  const NO_NODE := HDNode(0, 0, [], [], [], [], false, 0)
  const EMPTY := Entry(false, 0, Padded([]), NO_NODE)

  /** A parent path in its fixed array, the rest zero. */
  function Padded(parent: seq<uint32>): (s: seq<uint32>)
    ensures parent <= s
  {
    parent + if |parent| <= MAXDEPTH then seq(MAXDEPTH - |parent|, _ => 0) else []
  }

  datatype State = State(rootSet: bool, root: HDNode, index: nat, slots: seq<Entry>)

  function Wiped(): (s: seq<Entry>)
    ensures |s| == SIZE
  {
    seq(SIZE, _ => EMPTY)
  }

  const CLEARED := State(false, NO_NODE, 0, Wiped())

  predicate Matches(e: Entry, parent: seq<uint32>, n: HDNode) {
    e.set_ && e.depth == |parent| && parent <= e.path && e.node.curve == n.curve
  }

  /** The first slot from j on that remembers the parent, or SIZE. */
  function Lookup(slots: seq<Entry>, parent: seq<uint32>, n: HDNode, j: nat): (k: nat)
    requires j <= |slots|
    ensures j <= k <= |slots| && (k < |slots| ==> Matches(slots[k], parent, n))
    ensures forall m :: j <= m < k ==> !Matches(slots[m], parent, n)
    decreases |slots| - j
  {
    if j == |slots| || Matches(slots[j], parent, n) then j else Lookup(slots, parent, n, j + 1)
  }

  predicate Cacheable(path: seq<uint32>) {
    2 <= |path| <= MAXDEPTH + 1
  }

  /** Forget everything unless the root is the one the entries belong to. */
  function Rooted(st: State, n: HDNode): State {
    if st.rootSet && st.root == n then st else State(true, n, 0, Wiped())
  }

  function Save(st: State, parent: seq<uint32>, node: HDNode): State
    requires st.index < |st.slots|
  {
    st.(slots := st.slots[st.index := Entry(true, |parent|, Padded(parent), node)], index := (st.index + 1) % SIZE)
  }

  /** hdnode_private_ckd_cached as a function of the cache. */
  function Cached(g: Scheme, st: State, n: HDNode, path: seq<uint32>, want: bool): (State, Outcome)
    requires |st.slots| == SIZE && st.index < SIZE
  {
    if !Cacheable(path) then (st, Plain(g, n, path, want))
    else
      var parent, i := path[..|path| - 1], path[|path| - 1];
      var r := Rooted(st, n);
      var k := Lookup(r.slots, parent, n, 0);
      if k < SIZE then (r, Last(g, r.slots[k].node, i, want))
      else
        var (p, ok) := Walk(g, n, parent);
        if !ok then (r, Outcome(false, p, None)) else (Save(r, parent, p), Last(g, p, i, want))
  }

  /** What every slot in use holds: the derivation of the stored root along the stored path. */
  predicate Sound(g: Scheme, st: State) {
    && |st.slots| == SIZE && st.index < SIZE
    && (forall k :: 0 <= k < SIZE && st.slots[k].set_ ==>
          st.rootSet && st.slots[k].depth <= |st.slots[k].path|
          && Walk(g, st.root, st.slots[k].path[..st.slots[k].depth]) == (st.slots[k].node, true))
  }

  lemma ClearedSound(g: Scheme)
    ensures Sound(g, CLEARED)
  {}

  lemma RootedSound(g: Scheme, st: State, n: HDNode)
    requires Sound(g, st)
    ensures Sound(g, Rooted(st, n)) && Rooted(st, n).root == n && Rooted(st, n).rootSet
  {}

  lemma SaveSound(g: Scheme, st: State, parent: seq<uint32>, p: HDNode)
    requires Sound(g, st) && st.rootSet && Walk(g, st.root, parent) == (p, true)
    ensures Sound(g, Save(st, parent, p))
  {
    assert Padded(parent)[..|parent|] == parent;
  }

  /** The cache never shows: same status, node and fingerprint as without it. */
  lemma CachedIsPlain(g: Scheme, st: State, n: HDNode, path: seq<uint32>, want: bool)
    requires Sound(g, st)
    ensures Cached(g, st, n, path, want).1 == Plain(g, n, path, want)
    ensures Sound(g, Cached(g, st, n, path, want).0)
  {
    if Cacheable(path) {
      hide Walk, Last;
      var parent := path[..|path| - 1];
      var r := Rooted(st, n);
      RootedSound(g, st, n);
      var k := Lookup(r.slots, parent, n, 0);
      if k < SIZE {
        assert r.slots[k].path[..r.slots[k].depth] == parent;
      } else if Walk(g, n, parent).1 {
        SaveSound(g, r, parent, Walk(g, n, parent).0);
      }
    }
  }

  // Histories

  datatype Event = Clear | Derive(node: HDNode, path: seq<uint32>, want: bool)

  function After(g: Scheme, st: State, events: seq<Event>): (r: State)
    requires |st.slots| == SIZE && st.index < SIZE
    ensures |r.slots| == SIZE && r.index < SIZE
  {
    if |events| == 0 then st
    else
      var s := After(g, st, events[..|events| - 1]);
      match events[|events| - 1]
      case Clear => CLEARED
      case Derive(n, path, want) => Cached(g, s, n, path, want).0
  }

  lemma {:induction false} SoundAfter(g: Scheme, st: State, events: seq<Event>)
    requires Sound(g, st)
    ensures Sound(g, After(g, st, events))
    decreases |events|
  {
    if |events| > 0 {
      SoundAfter(g, st, events[..|events| - 1]);
      match events[|events| - 1]
      case Clear => ClearedSound(g);
      case Derive(m, q, w) => CachedIsPlain(g, After(g, st, events[..|events| - 1]), m, q, w);
    }
  }

  /** After any calls and clears, a call gives what plain derivation gives: without a fingerprint,
      the walk along the whole path. */
  lemma HistoryIsPlain(g: Scheme, events: seq<Event>, n: HDNode, path: seq<uint32>, want: bool)
    ensures Cached(g, After(g, CLEARED, events), n, path, want).1 == Plain(g, n, path, want)
    ensures !want ==> var o := Plain(g, n, path, want); (o.node, o.ok) == Walk(g, n, path)
  {
    PlainIsWalk(g, n, path);
    ClearedSound(g);
    SoundAfter(g, CLEARED, events);
    CachedIsPlain(g, After(g, CLEARED, events), n, path, want);
  }

  // The ring

  /** The parent of n along this path sits in the slot written age saves ago. */
  predicate Kept(st: State, n: HDNode, parent: seq<uint32>, age: nat) {
    && |st.slots| == SIZE && st.index < SIZE && age < SIZE && st.rootSet && st.root == n
    && Matches(st.slots[(st.index + SIZE - 1 - age) % SIZE], parent, n)
  }

  /** Calls for one root, or calls that go past the cache. */
  predicate SameRoot(events: seq<Event>, n: HDNode) {
    forall k :: 0 <= k < |events| ==> events[k].Derive? && (Cacheable(events[k].path) ==> events[k].node == n)
  }

  lemma KeptStep(g: Scheme, st: State, n: HDNode, parent: seq<uint32>, age: nat, e: Event)
    requires Kept(st, n, parent, age) && e.Derive? && (Cacheable(e.path) ==> e.node == n)
    ensures var st' := Cached(g, st, e.node, e.path, e.want).0;
            Kept(st', n, parent, age) || (age + 1 < SIZE ==> Kept(st', n, parent, age + 1))
  {
    hide Walk, Last, Plain, Matches;
  }

  lemma {:induction false} KeptRun(g: Scheme, st: State, n: HDNode, parent: seq<uint32>, events: seq<Event>)
    returns (age: nat)
    requires Kept(st, n, parent, 0) && SameRoot(events, n) && |events| < SIZE
    ensures age <= |events| && Kept(After(g, st, events), n, parent, age)
    decreases |events|
  {
    if |events| == 0 {
      age := 0;
    } else {
      var k := |events| - 1;
      age := KeptRun(g, st, n, parent, events[..k]);
      KeptStep(g, After(g, st, events[..k]), n, parent, age, events[k]);
      if !Kept(After(g, st, events), n, parent, age) {
        age := age + 1;
      }
    }
  }

  /** A parent derived for a call is still there for any of the next ten calls for the same root,
      whichever paths come between: such a call costs one step. */
  lemma RingKeepsTen(g: Scheme, st: State, n: HDNode, path: seq<uint32>, want: bool, events: seq<Event>, path': seq<uint32>)
    requires Sound(g, st) && Cacheable(path) && Lookup(Rooted(st, n).slots, path[..|path| - 1], n, 0) == SIZE
    requires Walk(g, n, path[..|path| - 1]).1 && Walk(g, n, path[..|path| - 1]).0.curve == n.curve
    requires SameRoot(events, n) && |events| < SIZE
    requires Cacheable(path') && path'[..|path'| - 1] == path[..|path| - 1]
    ensures var st' := After(g, Cached(g, st, n, path, want).0, events);
            Cached(g, st', n, path', want) == (st', Last(g, Walk(g, n, path[..|path| - 1]).0, path'[|path'| - 1], want))
  {
    hide Walk, Last, Plain, After;
    var parent := path[..|path| - 1];
    var s := Cached(g, st, n, path, want).0;
    RootedSound(g, st, n);
    CachedIsPlain(g, st, n, path, want);
    assert Kept(s, n, parent, 0);
    var age := KeptRun(g, s, n, parent, events);
    var st' := After(g, s, events);
    SoundAfter(g, s, events);
    var k := Lookup(st'.slots, parent, n, 0);
    assert k < SIZE;
    assert st'.slots[k].path[..st'.slots[k].depth] == parent;
  }

  // In place

  /** The loops over hdnode_private_ckd. */
  method WalkPath(g: Scheme, n: HDNode, path: seq<uint32>) returns (node: HDNode, ok: bool)
    ensures (node, ok) == Walk(g, n, path)
  {
    node, ok := n, true;
    for k := 0 to |path|
      invariant ok && Walk(g, n, path[..k]) == (node, true)
    {
      WalkConcat(g, n, path[..k], path[k..]);
      assert path[..k] + path[k..] == path;
      WalkConcat(g, n, path[..k], [path[k]]);
      assert path[..k] + [path[k]] == path[..k + 1];
      assert path[k..][0] == path[k];
      var r := g.step(node, path[k]);
      node, ok := r.0, r.1;
      if !ok {
        return;
      }
      OneStep(g, Walk(g, n, path[..k]).0, path[k]);
    }
    assert path[..|path|] == path;
  }

  lemma OneStep(g: Scheme, n: HDNode, i: uint32)
    ensures Walk(g, n, [i]) == g.step(n, i)
  {}

  method LastStep(g: Scheme, parent: HDNode, i: uint32, want: bool) returns (o: Outcome)
    ensures o == Last(g, parent, i, want)
  {
    var node := parent;
    var f: Option<uint32> := None;
    if want {
      var r := g.fingerprint(node);
      node, f := r.0, Some(r.1);
    }
    var (child, ok) := g.step(node, i);
    return Outcome(ok, child, f);
  }

  class Cache {
    const g: Scheme
    const slots: array<Entry>
    var rootSet: bool
    var root: HDNode
    var index: nat

    ghost function Abs(): State
      reads this, slots
    {
      State(rootSet, root, index, slots[..])
    }

    ghost predicate Valid()
      reads this, slots
    {
      Sound(g, Abs())
    }

    constructor (g: Scheme)
      ensures Valid() && Abs() == CLEARED && this.g == g
    {
      this.g := g;
      slots := new Entry[SIZE](_ => EMPTY);
      rootSet, root, index := false, NO_NODE, 0;
      new;
      assert slots[..] == Wiped();
    }

    method Wipe()
      requires slots.Length == SIZE
      modifies slots
      ensures slots[..] == Wiped()
    {
      for k := 0 to SIZE
        invariant slots[..k] == Wiped()[..k]
      {
        slots[k] := EMPTY;
      }
    }

    /** bip32_cache_clear */
    method Clear()
      requires Valid()
      modifies this, slots
      ensures Valid() && Abs() == CLEARED
    {
      rootSet, index := false, 0;
      root := NO_NODE;
      Wipe();
    }

    method Find(parent: seq<uint32>, n: HDNode) returns (k: nat)
      requires slots.Length == SIZE
      ensures k == Lookup(slots[..], parent, n, 0)
    {
      k := 0;
      while k < SIZE
        invariant k <= SIZE && Lookup(slots[..], parent, n, 0) == Lookup(slots[..], parent, n, k)
      {
        var e := slots[k];
        if e.set_ && e.depth == |parent| && parent <= e.path && e.node.curve == n.curve {
          return;
        }
        k := k + 1;
      }
    }

    /** hdnode_private_ckd_cached */
    method PrivateCkd(n: HDNode, path: seq<uint32>, want: bool) returns (o: Outcome)
      requires Valid()
      modifies this, slots
      ensures Valid() && (Abs(), o) == Cached(g, old(Abs()), n, path, want)
      ensures o == Plain(g, n, path, want)
    {
      ghost var st := Abs();
      CachedIsPlain(g, st, n, path, want);
      if |path| == 0 {
        return Outcome(true, n, None);
      }
      var parent, i := path[..|path| - 1], path[|path| - 1];
      if |path| == 1 || |path| - 1 > MAXDEPTH {
        var p, ok := WalkPath(g, n, parent);
        if !ok {
          return Outcome(false, p, None);
        }
        o := LastStep(g, p, i, want);
        return;
      }
      var k := SIZE;
      if !rootSet || root != n {
        index := 0;
        Wipe();
        root, rootSet := n, true;
      } else {
        k := Find(parent, n);
      }
      if k < SIZE {
        o := LastStep(g, slots[k].node, i, want);
        return;
      }
      var p, ok := WalkPath(g, n, parent);
      if !ok {
        return Outcome(false, p, None);
      }
      slots[index] := Entry(true, |parent|, Padded(parent), p);
      index := (index + 1) % SIZE;
      o := LastStep(g, p, i, want);
    }
  }
}
